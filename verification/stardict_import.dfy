/** StarDictAnhViet.import_dict_file and _is_sample_dict: the record
    decoder over the raw dictionary bytes, the definition cleanup, the
    sample-dictionary test and the import gate around them. */
module StarDictImport {
  import opened Optional
  import opened Text
  import Utils
  import Patterns
  import Seqs

  type Byte = x: int | 0 <= x < 256
  type Bytes = seq<Byte>

  // ---------------------------------------------------------------------
  // Big-endian length field
  // ---------------------------------------------------------------------

  const TwoTo32: nat := 0x1_0000_0000

  /** `struct.unpack('>I', b)[0]`. */
  function BE32(b: Bytes): (n: nat)
    requires |b| == 4
    ensures n < TwoTo32
  {
    (b[0] as int) * 0x100_0000 + (b[1] as int) * 0x1_0000 + (b[2] as int) * 0x100 + (b[3] as int)
  }

  function EncodeBE32(n: nat): (b: Bytes)
    requires n < TwoTo32
    ensures |b| == 4
  {
    var n1 := n / 0x100;
    var n2 := n1 / 0x100;
    var n3 := n2 / 0x100;
    [n3, n2 % 0x100, n1 % 0x100, n % 0x100]
  }

  lemma BE32OfEncode(n: nat)
    requires n < TwoTo32
    ensures BE32(EncodeBE32(n)) == n
  {
    var n1 := n / 0x100;
    var n2 := n1 / 0x100;
    var n3 := n2 / 0x100;
    assert n == n1 * 0x100 + n % 0x100;
    assert n1 == n2 * 0x100 + n1 % 0x100;
    assert n2 == n3 * 0x100 + n2 % 0x100;
  }

  lemma DivMod256(n: nat, q: nat, r: nat)
    requires r < 0x100 && n == q * 0x100 + r
    ensures n / 0x100 == q && n % 0x100 == r
  {
  }

  lemma EncodeOfBE32(b: Bytes)
    requires |b| == 4
    ensures EncodeBE32(BE32(b)) == b
  {
    var n := BE32(b);
    var q1 := (b[0] as int) * 0x1_0000 + (b[1] as int) * 0x100 + (b[2] as int);
    var q2 := (b[0] as int) * 0x100 + (b[1] as int);
    DivMod256(n, q1, b[3]);
    DivMod256(q1, q2, b[2]);
    DivMod256(q2, b[0], b[1]);
  }

  // ---------------------------------------------------------------------
  // The record decoder
  // ---------------------------------------------------------------------

  /** `buf.find(b'\0', from)`. */
  function FindZero(buf: Bytes, from: nat): (r: Option<nat>)
    ensures r.Some? ==> from <= r.value < |buf| && buf[r.value] == 0
    ensures r.Some? ==> forall i :: from <= i < r.value ==> buf[i] != 0
    ensures r.None? ==> forall i :: from <= i < |buf| ==> buf[i] != 0
    decreases |buf| - from
  {
    if from >= |buf| then None
    else if buf[from] == 0 then Some(from)
    else FindZero(buf, from + 1)
  }

  /** A record as the loop cuts it out of the buffer, before decoding. */
  datatype RawRecord = RawRecord(word: Bytes, definition: Bytes)

  /** The records the loop of import_dict_file visits from `offset` on:
      the word runs up to the next null byte at `idx`, the four bytes after
      it are skipped, `idx+5..idx+9` holds the big-endian payload length,
      the payload starts at `idx+9`, and the next record starts right after
      it. A missing null byte, fewer than nine bytes from the null, or a
      payload that runs past the end stops the walk quietly. */
  function DecodeFrom(buf: Bytes, offset: nat): (rs: seq<RawRecord>)
    ensures forall k :: 0 <= k < |rs| ==> 0 !in rs[k].word
    ensures rs != [] ==> offset + 9 * |rs| <= |buf|
    decreases |buf| - offset
  {
    if offset >= |buf| || FindZero(buf, offset).None? then []
    else
      var idx := FindZero(buf, offset).value;
      if idx + 9 > |buf| then []
        else
          var size := BE32(buf[idx + 5..idx + 9]);
          var start := idx + 9;
          if start + size > |buf| then []
          else [RawRecord(buf[offset..idx], buf[start..start + size])] + DecodeFrom(buf, start + size)
  }

  // ---------------------------------------------------------------------
  // The writer the decoder inverts
  // ---------------------------------------------------------------------

  /** One record as laid out in the file: word, null, four skipped bytes,
      big-endian length, payload. */
  datatype Entry = Entry(word: Bytes, reserved: Bytes, definition: Bytes)

  predicate WellFormed(e: Entry) {
    && (forall i :: 0 <= i < |e.word| ==> e.word[i] != 0)
    && |e.reserved| == 4
    && |e.definition| < TwoTo32
  }

  function EncodeEntry(e: Entry): (b: Bytes)
    requires WellFormed(e)
    ensures |b| == |e.word| + 9 + |e.definition|
  {
    e.word + [0] + e.reserved + EncodeBE32(|e.definition|) + e.definition
  }

  function EncodeAll(es: seq<Entry>): Bytes
    requires forall k :: 0 <= k < |es| ==> WellFormed(es[k])
  {
    if es == [] then [] else EncodeEntry(es[0]) + EncodeAll(es[1..])
  }

  function Pairs(es: seq<Entry>): (rs: seq<RawRecord>)
    ensures |rs| == |es|
    ensures forall k :: 0 <= k < |es| ==> rs[k] == RawRecord(es[k].word, es[k].definition)
  {
    if es == [] then [] else [RawRecord(es[0].word, es[0].definition)] + Pairs(es[1..])
  }

  lemma SliceMiddle<T>(a: seq<T>, b: seq<T>, c: seq<T>)
    ensures (a + b + c)[|a|..|a| + |b|] == b
  {
  }

  lemma SubSlice<T>(buf: seq<T>, offset: nat, enc: seq<T>, a: nat, b: nat)
    requires offset + |enc| <= |buf| && buf[offset..offset + |enc|] == enc
    requires a <= b <= |enc|
    ensures buf[offset + a..offset + b] == enc[a..b]
  {
    var window := buf[offset..offset + |enc|];
    forall k | 0 <= k < b - a
      ensures buf[offset + a..offset + b][k] == enc[a..b][k]
    {
      assert window[a + k] == buf[offset + a + k];
    }
  }

  lemma SplitSlice<T>(buf: seq<T>, offset: nat, a: seq<T>, b: seq<T>)
    requires offset + |a| + |b| <= |buf| && buf[offset..offset + |a + b|] == a + b
    ensures buf[offset..offset + |a|] == a
    ensures buf[offset + |a|..offset + |a| + |b|] == b
  {
    assert buf[offset..offset + |a|] == buf[offset..offset + |a + b|][..|a|];
    assert buf[offset + |a|..offset + |a| + |b|] == buf[offset..offset + |a + b|][|a|..];
  }

  lemma FindZeroAt(buf: Bytes, from: nat, idx: nat)
    requires from <= idx < |buf| && buf[idx] == 0
    requires forall i :: from <= i < idx ==> buf[i] != 0
    ensures FindZero(buf, from) == Some(idx)
  {
  }

  lemma SliceAt<T>(buf: seq<T>, offset: nat, enc: seq<T>, i: nat)
    requires offset + |enc| <= |buf| && buf[offset..offset + |enc|] == enc
    requires offset <= i < offset + |enc|
    ensures buf[i] == enc[i - offset]
  {
    assert buf[offset..offset + |enc|][i - offset] == buf[i];
  }

  /** The encoding starts with the word and then its null terminator. */
  lemma EncodeEntryHead(e: Entry)
    requires WellFormed(e)
    ensures forall k :: 0 <= k < |e.word| ==> EncodeEntry(e)[k] != 0
    ensures EncodeEntry(e)[|e.word|] == 0
  {
    var tail := [0] + e.reserved + EncodeBE32(|e.definition|) + e.definition;
    assert EncodeEntry(e) == e.word + tail;
  }

  /** One turn of the loop, read off the definition: the record between
      `offset` and the null at `idx`, and the payload of `size` bytes. */
  lemma DecodeFromAt(buf: Bytes, offset: nat, idx: nat, size: nat, next: nat, word: Bytes, definition: Bytes)
    requires offset < |buf| && FindZero(buf, offset) == Some(idx)
    requires next == idx + 9 + size <= |buf| && BE32(buf[idx + 5..idx + 9]) == size
    requires word == buf[offset..idx] && definition == buf[idx + 9..next]
    ensures DecodeFrom(buf, offset) == [RawRecord(word, definition)] + DecodeFrom(buf, next)
  {
    assert FindZero(buf, offset).value == idx;
    assert idx + 9 + BE32(buf[idx + 5..idx + 9]) == next;
  }

  /** The loop stops when no null follows `offset`, */
  lemma DecodeStopsNoNull(buf: Bytes, offset: nat)
    requires FindZero(buf, offset).None?
    ensures DecodeFrom(buf, offset) == []
  {
  }

  /** when the header after the null runs past the end, */
  lemma DecodeStopsShortHeader(buf: Bytes, offset: nat, idx: nat)
    requires FindZero(buf, offset) == Some(idx) && idx + 9 > |buf|
    ensures DecodeFrom(buf, offset) == []
  {
  }

  /** and when the payload runs past the end. */
  lemma DecodeStopsShortPayload(buf: Bytes, offset: nat, idx: nat, size: nat)
    requires FindZero(buf, offset) == Some(idx) && idx + 9 <= |buf|
    requires BE32(buf[idx + 5..idx + 9]) == size && idx + 9 + size > |buf|
    ensures DecodeFrom(buf, offset) == []
  {
  }

  /** The null the walk finds after an encoded record's start is the one
      that ends its word. */
  lemma EncodedZero(buf: Bytes, offset: nat, e: Entry)
    requires WellFormed(e)
    requires offset + |EncodeEntry(e)| <= |buf|
    requires buf[offset..offset + |EncodeEntry(e)|] == EncodeEntry(e)
    ensures FindZero(buf, offset) == Some(offset + |e.word|)
  {
    var enc := EncodeEntry(e);
    var idx := offset + |e.word|;
    EncodeEntryHead(e);
    forall i | offset <= i < idx
      ensures buf[i] != 0
    {
      SliceAt(buf, offset, enc, i);
    }
    SliceAt(buf, offset, enc, idx);
    FindZeroAt(buf, offset, idx);
  }

  /** The length field of an encoded record reads back as its payload
      length. */
  lemma EncodedLength(buf: Bytes, offset: nat, e: Entry)
    requires WellFormed(e)
    requires offset + |EncodeEntry(e)| <= |buf|
    requires buf[offset..offset + |EncodeEntry(e)|] == EncodeEntry(e)
    ensures BE32(buf[offset + |e.word| + 5..offset + |e.word| + 9]) == |e.definition|
  {
    var enc := EncodeEntry(e);
    var len := EncodeBE32(|e.definition|);
    var head := e.word + [0] + e.reserved;
    assert enc == head + len + e.definition;
    SubSlice(buf, offset, enc, |head|, |head| + 4);
    SliceMiddle(head, len, e.definition);
    BE32OfEncode(|e.definition|);
  }

  /** The word and the payload of an encoded record sit where the walk
      cuts them. */
  lemma EncodedFields(buf: Bytes, offset: nat, e: Entry)
    requires WellFormed(e)
    requires offset + |EncodeEntry(e)| <= |buf|
    requires buf[offset..offset + |EncodeEntry(e)|] == EncodeEntry(e)
    ensures buf[offset..offset + |e.word|] == e.word
    ensures buf[offset + |e.word| + 9..offset + |EncodeEntry(e)|] == e.definition
  {
    var enc := EncodeEntry(e);
    SubSlice(buf, offset, enc, 0, |e.word|);
    assert enc[0..|e.word|] == e.word;
    SubSlice(buf, offset, enc, |e.word| + 9, |enc|);
    assert enc[|e.word| + 9..|enc|] == e.definition;
  }

  /** One well-formed record at `offset` is decoded as itself, and the walk
      resumes right after its payload, at `next`. */
  lemma DecodeStep(buf: Bytes, offset: nat, e: Entry, next: nat)
    requires WellFormed(e)
    requires next == offset + |EncodeEntry(e)| <= |buf|
    requires buf[offset..next] == EncodeEntry(e)
    ensures DecodeFrom(buf, offset) == [RawRecord(e.word, e.definition)] + DecodeFrom(buf, next)
  {
    var idx := offset + |e.word|;
    EncodedZero(buf, offset, e);
    EncodedLength(buf, offset, e);
    EncodedFields(buf, offset, e);
    DecodeFromAt(buf, offset, idx, |e.definition|, next, e.word, e.definition);
  }

  /** Decoding a run of well-formed records yields them in order; the walk
      then stands at `end`, right after the last one. */
  lemma {:induction false} DecodeEncoded(buf: Bytes, offset: nat, es: seq<Entry>, end: nat)
    requires forall k :: 0 <= k < |es| ==> WellFormed(es[k])
    requires end == offset + |EncodeAll(es)| <= |buf|
    requires buf[offset..end] == EncodeAll(es)
    ensures DecodeFrom(buf, offset) == Pairs(es) + DecodeFrom(buf, end)
    decreases |es|
  {
    if es == [] {
      assert Pairs(es) + DecodeFrom(buf, offset) == DecodeFrom(buf, offset);
    } else {
      var first := EncodeEntry(es[0]);
      var rest := EncodeAll(es[1..]);
      var r0 := RawRecord(es[0].word, es[0].definition);
      assert EncodeAll(es) == first + rest;
      SplitSlice(buf, offset, first, rest);
      var mid := offset + |first|;
      DecodeStep(buf, offset, es[0], mid);
      DecodeEncoded(buf, mid, es[1..], end);
      assert Pairs(es) == [r0] + Pairs(es[1..]);
      Seqs.AppendAssoc([r0], Pairs(es[1..]), DecodeFrom(buf, end));
    }
  }

  /** Decoding the encoding of N well-formed records gives back the N
      (word, payload) pairs. */
  lemma DecodeRoundTrip(es: seq<Entry>)
    requires forall k :: 0 <= k < |es| ==> WellFormed(es[k])
    ensures DecodeFrom(EncodeAll(es), 0) == Pairs(es)
  {
    var buf := EncodeAll(es);
    assert buf[0..|buf|] == buf;
    DecodeEncoded(buf, 0, es, |buf|);
  }

  lemma SuffixAt<T>(buf: seq<T>, offset: nat, pre: seq<T>, i: nat)
    requires offset <= |buf| && buf[offset..] == pre
    requires offset <= i < |buf|
    ensures buf[i] == pre[i - offset]
  {
    assert buf[offset..][i - offset] == buf[i];
  }

  /** The four length bytes sit right after the word, its null and the
      four skipped bytes. */
  lemma EncodeEntryLength(e: Entry)
    requires WellFormed(e)
    ensures EncodeEntry(e)[|e.word| + 5..|e.word| + 9] == EncodeBE32(|e.definition|)
  {
    var head := e.word + [0] + e.reserved;
    SliceMiddle(head, EncodeBE32(|e.definition|), e.definition);
  }

  /** A cut inside the word leaves no null byte to find. */
  lemma TruncatedInWord(buf: Bytes, offset: nat, e: Entry)
    requires WellFormed(e)
    requires offset <= |buf| && |buf| - offset <= |e.word|
    requires buf[offset..] == EncodeEntry(e)[..|buf| - offset]
    ensures DecodeFrom(buf, offset) == []
  {
    var pre := EncodeEntry(e)[..|buf| - offset];
    EncodeEntryHead(e);
    forall i | offset <= i < |buf|
      ensures buf[i] != 0
    {
      SuffixAt(buf, offset, pre, i);
    }
    assert FindZero(buf, offset).None?;
    DecodeStopsNoNull(buf, offset);
  }

  /** A cut after the word's null leaves the header or the payload short. */
  lemma TruncatedAfterWord(buf: Bytes, offset: nat, e: Entry)
    requires WellFormed(e)
    requires offset <= |buf| && |e.word| < |buf| - offset < |EncodeEntry(e)|
    requires buf[offset..] == EncodeEntry(e)[..|buf| - offset]
    ensures DecodeFrom(buf, offset) == []
  {
    var enc := EncodeEntry(e);
    var pre := enc[..|buf| - offset];
    var idx := offset + |e.word|;
    EncodeEntryHead(e);
    forall i | offset <= i < idx
      ensures buf[i] != 0
    {
      SuffixAt(buf, offset, pre, i);
    }
    SuffixAt(buf, offset, pre, idx);
    FindZeroAt(buf, offset, idx);
    if idx + 9 <= |buf| {
      assert buf[idx + 5..idx + 9] == enc[|e.word| + 5..|e.word| + 9] by {
        assert buf[idx + 5..idx + 9] == buf[offset..][|e.word| + 5..|e.word| + 9];
        assert pre[|e.word| + 5..|e.word| + 9] == enc[|e.word| + 5..|e.word| + 9];
      }
      EncodeEntryLength(e);
      BE32OfEncode(|e.definition|);
      DecodeStopsShortPayload(buf, offset, idx, |e.definition|);
    } else {
      DecodeStopsShortHeader(buf, offset, idx);
    }
  }

  /** A strict prefix of a record is silently ignored. */
  lemma DecodeTruncatedTail(buf: Bytes, offset: nat, e: Entry)
    requires WellFormed(e)
    requires offset <= |buf| && |buf| - offset < |EncodeEntry(e)|
    requires buf[offset..] == EncodeEntry(e)[..|buf| - offset]
    ensures DecodeFrom(buf, offset) == []
  {
    if |buf| - offset <= |e.word| {
      TruncatedInWord(buf, offset, e);
    } else {
      TruncatedAfterWord(buf, offset, e);
    }
  }

  /** Whole records at the front of a buffer decode to their pairs, and
      decoding carries on where they end. */
  lemma DecodeEncodedPrefix(es: seq<Entry>, head: Bytes, tail: Bytes)
    requires forall k :: 0 <= k < |es| ==> WellFormed(es[k])
    requires head == EncodeAll(es)
    ensures DecodeFrom(head + tail, 0) == Pairs(es) + DecodeFrom(head + tail, |head|)
  {
    Seqs.AppendParts(head, tail);
    DecodeEncoded(head + tail, 0, es, |head|);
  }

  /** A cut-off record after any prefix decodes to nothing. */
  lemma DecodeCutSuffix(head: Bytes, tail: Bytes, e: Entry)
    requires WellFormed(e)
    requires |tail| < |EncodeEntry(e)| && tail == EncodeEntry(e)[..|tail|]
    ensures DecodeFrom(head + tail, |head|) == []
  {
    Seqs.AppendParts(head, tail);
    DecodeTruncatedTail(head + tail, |head|, e);
  }

  /** Well-formed records followed by a cut-off record decode to the whole
      records only. */
  lemma DecodeTruncated(es: seq<Entry>, e: Entry, cut: nat)
    requires forall k :: 0 <= k < |es| ==> WellFormed(es[k])
    requires WellFormed(e)
    requires cut < |EncodeEntry(e)|
    ensures DecodeFrom(EncodeAll(es) + EncodeEntry(e)[..cut], 0) == Pairs(es)
  {
    var tail := EncodeEntry(e)[..cut];
    DecodeEncodedPrefix(es, EncodeAll(es), tail);
    DecodeCutSuffix(EncodeAll(es), tail, e);
    assert Pairs(es) + [] == Pairs(es);
  }

  // ---------------------------------------------------------------------
  // Definition cleanup
  // ---------------------------------------------------------------------

  /** `re.sub(r'<[^>]+>', ' ', s)`: each tag becomes one space. */
  function StripTags(s: String): (r: String)
    ensures |r| <= |s|
  {
    Patterns.SubDelimited(s, '<', '>', " ")
  }

  /** The substitution leaves no tag behind, so a second pass changes
      nothing. */
  lemma StripTagsIdempotent(s: String)
    ensures forall i :: 0 <= i < |StripTags(s)| ==> !Patterns.DelimitedAt(StripTags(s), i, '<', '>')
    ensures StripTags(StripTags(s)) == StripTags(s)
  {
    Patterns.SubDelimitedLeavesNoMatch(s, '<', '>', " ");
    Patterns.UnmatchedIff(StripTags(s), '<', '>');
    Patterns.SubDelimitedIdempotent(s, '<', '>', " ");
  }

  /** `re.sub(r'\s+', ' ', s)`: every maximal whitespace run becomes one
      space. */
  function CollapseSpace(s: String): (r: String)
    ensures r == [] || !IsSpace(r[0]) || r[0] == ' '
    decreases |s|
  {
    if s == [] then []
    else if IsSpace(s[0]) then " " + CollapseSpace(TrimLeft(s[1..]))
    else
      var w := TakeWord(s);
      w + CollapseSpace(s[|w|..])
  }

  lemma CollapseBlankStep(s: String, t: String)
    requires s != [] && IsSpace(s[0]) && t == TrimLeft(s[1..])
    ensures Words(CollapseSpace(s)) == Words(CollapseSpace(t))
    ensures Words(s) == Words(t)
  {
    assert [s[0]] + s[1..] == s;
    assert CollapseSpace(s) == [' '] + CollapseSpace(t);
    WordsSkipSpace(' ', CollapseSpace(t));
    WordsSkipSpace(s[0], s[1..]);
    TrimLeftOfNonSpace(t);
  }

  lemma CollapseWordStep(s: String, w: String, rest: String)
    requires s != [] && !IsSpace(s[0]) && w == TakeWord(s) && rest == s[|w|..]
    ensures Words(CollapseSpace(s)) == [w] + Words(CollapseSpace(rest))
    ensures Words(s) == [w] + Words(rest)
  {
    assert s == w + rest;
    assert CollapseSpace(s) == w + CollapseSpace(rest);
    CollapseSpaceStartsBlank(rest);
    WordsOfWordThen(w, CollapseSpace(rest));
    WordsOfWordThen(w, rest);
  }

  /** Collapsing whitespace runs keeps the words. */
  lemma {:induction false} CollapseSpaceWords(s: String)
    ensures Words(CollapseSpace(s)) == Words(s)
    decreases |s|
  {
    if s != [] {
      if IsSpace(s[0]) {
        var t := TrimLeft(s[1..]);
        CollapseBlankStep(s, t);
        CollapseSpaceWords(t);
      } else {
        var w := TakeWord(s);
        var rest := s[|w|..];
        CollapseWordStep(s, w, rest);
        CollapseSpaceWords(rest);
      }
    }
  }

  lemma CollapseSpaceStartsBlank(s: String)
    requires s == [] || IsSpace(s[0])
    ensures CollapseSpace(s) == [] || CollapseSpace(s)[0] == ' '
  {
  }

  /** Every whitespace character is a plain space with no whitespace right
      after it. */
  predicate SpacesCollapsed(s: String) {
    forall i :: 0 <= i < |s| && IsSpace(s[i]) ==> s[i] == ' ' && (i + 1 == |s| || !IsSpace(s[i + 1]))
  }

  lemma SpacesCollapsedAppend(a: String, b: String)
    requires SpacesCollapsed(a) && SpacesCollapsed(b)
    requires a == [] || b == [] || !IsSpace(a[|a| - 1]) || !IsSpace(b[0])
    ensures SpacesCollapsed(a + b)
  {
    var s := a + b;
    forall i | 0 <= i < |s| && IsSpace(s[i])
      ensures s[i] == ' ' && (i + 1 == |s| || !IsSpace(s[i + 1]))
    {
      if i < |a| {
        assert s[i] == a[i];
        if i + 1 < |a| { assert s[i + 1] == a[i + 1]; }
        else if i + 1 < |s| { assert s[i + 1] == b[0]; }
      } else {
        assert s[i] == b[i - |a|];
        if i + 1 < |s| { assert s[i + 1] == b[i + 1 - |a|]; }
      }
    }
  }

  lemma {:induction false} CollapseSpaceCollapsed(s: String)
    ensures SpacesCollapsed(CollapseSpace(s))
    decreases |s|
  {
    if s != [] {
      if IsSpace(s[0]) {
        var t := TrimLeft(s[1..]);
        var c := CollapseSpace(t);
        assert SpacesCollapsed(c) by { CollapseSpaceCollapsed(t); }
        assert c == [] || !IsSpace(c[0]) by {
          TrimLeftOfNonSpace(t);
          CollapseSpaceStartsWord(t);
        }
        assert SpacesCollapsed(" " + c) by { SpacesCollapsedAppend(" ", c); }
        assert CollapseSpace(s) == " " + c;
      } else {
        var w := TakeWord(s);
        var c := CollapseSpace(s[|w|..]);
        assert SpacesCollapsed(c) by { CollapseSpaceCollapsed(s[|w|..]); }
        assert SpacesCollapsed(w + c) by { SpacesCollapsedAppend(w, c); }
        assert CollapseSpace(s) == w + c;
      }
    }
  }

  lemma CollapseSpaceStartsWord(s: String)
    requires s == [] || !IsSpace(s[0])
    ensures CollapseSpace(s) == [] || !IsSpace(CollapseSpace(s)[0])
  {
  }

  /** Stripping a string whose whitespace is collapsed makes it single-spaced. */
  lemma StripCollapsedSingleSpaced(s: String)
    requires SpacesCollapsed(s)
    ensures SingleSpaced(Strip(s))
  {
    var a := StripIsInfix(s);
    var r := Strip(s);
    forall i | 0 <= i < |r| && IsSpace(r[i])
      ensures r[i] == ' ' && 0 < i < |r| - 1 && !IsSpace(r[i - 1]) && !IsSpace(r[i + 1])
    {
      assert r[i] == s[a + i];
      assert s[a + i + 1] == r[i + 1];
      if i > 0 {
        assert r[i - 1] == s[a + i - 1];
      }
    }
  }

  /** The cleanup of a decoded payload: tags become spaces, whitespace
      runs become one space, and the ends are trimmed. */
  function CleanDefinition(d: String): String {
    Strip(CollapseSpace(StripTags(d)))
  }

  /** The cleanup is `clean_text` applied after the tag substitution: the
      words of the tag-free text joined by single spaces. */
  lemma CleanDefinitionIsCleanText(d: String)
    ensures CleanDefinition(d) == Utils.CleanText(StripTags(d))
    ensures SingleSpaced(CleanDefinition(d))
    ensures Words(CleanDefinition(d)) == Words(StripTags(d))
  {
    var t := StripTags(d);
    var c := CollapseSpace(t);
    var r := Strip(c);
    assert SingleSpaced(r) by {
      CollapseSpaceCollapsed(t);
      StripCollapsedSingleSpaced(c);
    }
    assert Words(r) == Words(t) by {
      CollapseSpaceWords(t);
      Utils.WordsOfStrip(c);
    }
    assert Utils.CleanText(t) == Utils.CleanText(r) by {
      Utils.CleanTextSameWords(t, r);
    }
    assert Utils.CleanText(r) == r by {
      Utils.CleanTextFixedPoints(r);
    }
  }

  // ---------------------------------------------------------------------
  // Stored rows
  // ---------------------------------------------------------------------

  /** A `(word, definition, source)` row of the `dictionary` table. */
  datatype Row = Row(word: String, definition: String, source: String)

  /** The rows one record produces: none when the decoded word or the
      cleaned definition is empty. */
  function RowsOf(rec: RawRecord, decode: Bytes -> String, source: String): (rows: seq<Row>)
    ensures |rows| <= 1
    ensures forall k :: 0 <= k < |rows| ==> rows[k].word != [] && rows[k].definition != [] && rows[k].source == source
    ensures |rows| == 1 <==> decode(rec.word) != [] && CleanDefinition(decode(rec.definition)) != []
  {
    var word := decode(rec.word);
    var definition := CleanDefinition(decode(rec.definition));
    if word != [] && definition != [] then [Row(word, definition, source)] else []
  }

  function StoredRows(recs: seq<RawRecord>, decode: Bytes -> String, source: String): (rows: seq<Row>)
    ensures |rows| <= |recs|
    ensures forall k :: 0 <= k < |rows| ==> rows[k].word != [] && rows[k].definition != [] && rows[k].source == source
  {
    if recs == [] then [] else RowsOf(recs[0], decode, source) + StoredRows(recs[1..], decode, source)
  }

  /** The number of records with a non-empty word and cleaned definition. */
  function CountStorable(recs: seq<RawRecord>, decode: Bytes -> String): nat {
    if recs == [] then 0
    else
      (if decode(recs[0].word) != [] && CleanDefinition(decode(recs[0].definition)) != [] then 1 else 0)
      + CountStorable(recs[1..], decode)
  }

  lemma {:induction false} StoredRowsCount(recs: seq<RawRecord>, decode: Bytes -> String, source: String)
    ensures |StoredRows(recs, decode, source)| == CountStorable(recs, decode)
  {
    if recs != [] {
      StoredRowsCount(recs[1..], decode, source);
    }
  }

  lemma StoredRowsAppend(a: seq<RawRecord>, b: seq<RawRecord>, decode: Bytes -> String, source: String)
    ensures StoredRows(a + b, decode, source) == StoredRows(a, decode, source) + StoredRows(b, decode, source)
  {
    if a != [] {
      assert (a + b)[1..] == a[1..] + b;
      StoredRowsAppend(a[1..], b, decode, source);
    } else {
      assert a + b == b;
    }
  }

  lemma StoredRowsSnoc(recs: seq<RawRecord>, rec: RawRecord, decode: Bytes -> String, source: String)
    ensures StoredRows(recs + [rec], decode, source) == StoredRows(recs, decode, source) + RowsOf(rec, decode, source)
  {
    StoredRowsAppend(recs, [rec], decode, source);
    assert StoredRows([rec], decode, source) == RowsOf(rec, decode, source) + StoredRows([], decode, source);
  }

  /** The decode loop of import_dict_file: rows appended in file order and
      the count that is logged. */
  method DecodeDict(buf: Bytes, decode: Bytes -> String, source: String) returns (rows: seq<Row>, wordIdx: nat)
    ensures rows == StoredRows(DecodeFrom(buf, 0), decode, source)
    ensures wordIdx == |rows| == CountStorable(DecodeFrom(buf, 0), decode)
  {
    ghost var done: seq<RawRecord> := [];
    var offset: nat := 0;
    rows := [];
    wordIdx := 0;
    while offset < |buf|
      invariant DecodeFrom(buf, 0) == done + DecodeFrom(buf, offset)
      invariant rows == StoredRows(done, decode, source)
      invariant wordIdx == |rows|
      decreases |buf| - offset
    {
      var found := FindZero(buf, offset);
      if found.None? {
        DecodeStopsNoNull(buf, offset);
        break;
      }
      var idx := found.value;
      var word := decode(buf[offset..idx]);
      if idx + 9 > |buf| {
        DecodeStopsShortHeader(buf, offset, idx);
        break;
      }
      var size := BE32(buf[idx + 5..idx + 9]);
      var start := idx + 9;
      if start + size > |buf| {
        DecodeStopsShortPayload(buf, offset, idx, size);
        break;
      }
      var next := start + size;
      var rec := RawRecord(buf[offset..idx], buf[start..next]);
      assert DecodeFrom(buf, 0) == (done + [rec]) + DecodeFrom(buf, next) by {
        DecodeFromAt(buf, offset, idx, size, next, rec.word, rec.definition);
        Seqs.AppendAssoc(done, [rec], DecodeFrom(buf, next));
      }
      assert StoredRows(done + [rec], decode, source) == rows + RowsOf(rec, decode, source) by {
        StoredRowsSnoc(done, rec, decode, source);
      }
      done := done + [rec];
      var definition := CleanDefinition(decode(rec.definition));
      if word != [] && definition != [] {
        rows := rows + [Row(word, definition, source)];
        wordIdx := wordIdx + 1;
      } else {
        assert rows + [] == rows;
      }
      offset := next;
    }
    if offset >= |buf| {
      assert DecodeFrom(buf, offset) == [];
    }
    assert done + [] == done;
    StoredRowsCount(done, decode, source);
  }


  // ---------------------------------------------------------------------
  // The sample-dictionary test
  // ---------------------------------------------------------------------

  /** The name fragments that mark a sample dictionary. */
  const SamplePatterns: seq<String> := ["sample", "mẫu", "test", "simple", "basic", "local"]

  predicate MentionsAny(name: String, patterns: seq<String>) {
    exists k | 0 <= k < |patterns| :: Contains(Lower(name), patterns[k])
  }

  /** The first code point of every run of ten decimal digits (Unicode
      general category Nd, version 15.0) other than ASCII `0`-`9`. Each run
      holds the digits 0 to 9 in order; these and the ASCII digits are the
      characters Python's `\d` matches in a `str` pattern and `int` reads. */
  const OtherDigitZeros: seq<int> :=
    [0x660, 0x6F0, 0x7C0, 0x966, 0x9E6, 0xA66, 0xAE6, 0xB66] +
    [0xBE6, 0xC66, 0xCE6, 0xD66, 0xDE6, 0xE50, 0xED0, 0xF20] +
    [0x1040, 0x1090, 0x17E0, 0x1810, 0x1946, 0x19D0, 0x1A80, 0x1A90] +
    [0x1B50, 0x1BB0, 0x1C40, 0x1C50, 0xA620, 0xA8D0, 0xA900, 0xA9D0] +
    [0xA9F0, 0xAA50, 0xABF0, 0xFF10, 0x104A0, 0x10D30, 0x11066, 0x110F0] +
    [0x11136, 0x111D0, 0x112F0, 0x11450, 0x114D0, 0x11650, 0x116C0, 0x11730] +
    [0x118E0, 0x11950, 0x11C50, 0x11D50, 0x11DA0, 0x11F50, 0x16A60, 0x16AC0] +
    [0x16B50, 0x1D7CE, 0x1D7D8, 0x1D7E2, 0x1D7EC, 0x1D7F6, 0x1E140, 0x1E2F0] +
    [0x1E4F0, 0x1E950, 0x1FBF0]

  /** The zero of the run holding `c`, searched from run `k` on. */
  function DigitZeroFrom(c: char, k: nat): (z: Option<int>)
    ensures z.Some? ==> z.value <= c as int < z.value + 10
    ensures z.Some? <==> exists j :: k <= j < |OtherDigitZeros| && OtherDigitZeros[j] <= c as int < OtherDigitZeros[j] + 10
    decreases |OtherDigitZeros| - k
  {
    if k >= |OtherDigitZeros| then None
    else if OtherDigitZeros[k] <= c as int < OtherDigitZeros[k] + 10 then Some(OtherDigitZeros[k])
    else DigitZeroFrom(c, k + 1)
  }

  /** `c` lies in one of the non-ASCII runs of digits. */
  predicate IsOtherDigit(c: char) {
    c as int >= 0x660 && exists j | 0 <= j < |OtherDigitZeros| :: OtherDigitZeros[j] <= c as int < OtherDigitZeros[j] + 10
  }

  /** A decimal digit of any script. */
  predicate IsDigit(c: char) {
    ('0' <= c <= '9') || IsOtherDigit(c)
  }

  /** The value of a decimal digit. */
  function DigitOf(c: char): (v: nat)
    requires IsDigit(c)
    ensures v < 10
  {
    if '0' <= c <= '9' then c as int - '0' as int
    else c as int - DigitZeroFrom(c, 0).value
  }

  /** Digits of other scripts count: an Arabic-Indic five reads as 5, in
      the wordcount search as in `int`. */
  lemma ArabicIndicFive()
    ensures IsDigit('\U{0665}') && DigitOf('\U{0665}') == 5
    ensures SearchWordcount("wordcount=\U{0665}") == Some(5)
  {
  }

  /** The longest prefix of decimal digits. */
  function TakeDigits(s: String): (d: String)
    ensures |d| <= |s| && d == s[..|d|]
    ensures forall i :: 0 <= i < |d| ==> IsDigit(d[i])
    ensures |d| == |s| || !IsDigit(s[|d|])
  {
    if s == [] || !IsDigit(s[0]) then [] else [s[0]] + TakeDigits(s[1..])
  }

  /** The value of a string of decimal digits. */
  function DigitsValue(d: String): nat
    requires forall i :: 0 <= i < |d| ==> IsDigit(d[i])
  {
    if d == [] then 0
    else
      var c := d[|d| - 1];
      assert IsDigit(c);
      DigitsValue(d[..|d| - 1]) * 10 + DigitOf(c)
  }

  /** The decimal spelling of a natural number. */
  function ShowNat(n: nat): (d: String)
    ensures d != [] && forall i :: 0 <= i < |d| ==> '0' <= d[i] <= '9' && IsDigit(d[i])
  {
    if n < 10 then [('0' as int + n) as char]
    else ShowNat(n / 10) + [('0' as int + n % 10) as char]
  }

  lemma {:induction false} DigitsValueOfShow(n: nat)
    ensures DigitsValue(ShowNat(n)) == n
  {
    if n >= 10 {
      DigitsValueOfShow(n / 10);
      var d := ShowNat(n);
      assert d[..|d| - 1] == ShowNat(n / 10);
    }
  }

  /** `wordcount=` followed by at least one digit starts at `i`. */
  predicate WordcountAt(s: String, i: nat) {
    ContainsAt(s, "wordcount=", i) && i + 10 < |s| && IsDigit(s[i + 10])
  }

  /** Where `re.search(r'wordcount=(\d+)', s)` matches, looking from `from`. */
  function FindWordcount(s: String, from: nat): (r: Option<nat>)
    ensures r.Some? ==> from <= r.value && WordcountAt(s, r.value)
    ensures r.Some? ==> forall i :: from <= i < r.value ==> !WordcountAt(s, i)
    ensures r.None? ==> forall i :: from <= i ==> !WordcountAt(s, i)
    decreases |s| - from
  {
    if from + 10 >= |s| then None
    else if WordcountAt(s, from) then Some(from)
    else FindWordcount(s, from + 1)
  }

  /** The digits `re.search(r'wordcount=(\d+)', s)` captures, if any: the
      whole run of digits after the first match. */
  function WordcountDigits(s: String): (r: Option<String>)
    ensures r.Some? <==> exists i | 0 <= i <= |s| :: WordcountAt(s, i)
    ensures r.Some? ==> r.value != [] && forall k :: 0 <= k < |r.value| ==> IsDigit(r.value[k])
  {
    match FindWordcount(s, 0)
    case None => None
    case Some(i) => Some(TakeDigits(s[i + 10..]))
  }

  /** The number `re.search(r'wordcount=(\d+)', s)` captures, if any. */
  function SearchWordcount(s: String): (r: Option<nat>)
    ensures r.Some? <==> exists i | 0 <= i <= |s| :: WordcountAt(s, i)
  {
    match WordcountDigits(s)
    case None => None
    case Some(d) => Some(DigitsValue(d))
  }

  lemma DropPrefix<T>(a: seq<T>, b: seq<T>, c: seq<T>)
    ensures (a + b + c)[|a|..] == b + c
  {
  }

  /** A text that starts with `wordcount=` and a digit matches at once. */
  lemma WordcountFirst(d: String, post: String)
    requires d != [] && IsDigit(d[0])
    ensures FindWordcount("wordcount=" + d + post, 0) == Some(0)
  {
    var s := "wordcount=" + d + post;
    assert s[..10] == "wordcount=";
    assert s[10] == d[0];
    assert WordcountAt(s, 0);
  }

  /** A header that starts with the wordcount line is read back exactly. */
  lemma SearchWordcountOfHeader(n: nat, post: String)
    requires post == [] || !IsDigit(post[0])
    ensures SearchWordcount("wordcount=" + ShowNat(n) + post) == Some(n)
  {
    var d := ShowNat(n);
    var s := "wordcount=" + d + post;
    assert FindWordcount(s, 0) == Some(0) by { WordcountFirst(d, post); }
    assert s[10..] == d + post by { DropPrefix("wordcount=", d, post); }
    assert TakeDigits(d + post) == d by { TakeDigitsOfDigits(d, post); }
    assert DigitsValue(d) == n by { DigitsValueOfShow(n); }
    assert WordcountDigits(s) == Some(TakeDigits(s[10..]));
  }

  lemma {:induction false} TakeDigitsOfDigits(d: String, post: String)
    requires forall i :: 0 <= i < |d| ==> IsDigit(d[i])
    requires post == [] || !IsDigit(post[0])
    ensures TakeDigits(d + post) == d
    decreases |d|
  {
    if d != [] {
      assert (d + post)[1..] == d[1..] + post;
      TakeDigitsOfDigits(d[1..], post);
    } else {
      assert d + post == post;
    }
  }

  /** `.dict.dz` and then `.dict` replaced by `.ifo`, as both the sample
      test and the dictionary scan derive the companion file. */
  function IfoPathFor(dictFile: String): String {
    ReplaceAll(ReplaceAll(dictFile, ".dict.dz", ".ifo"), ".dict", ".ifo")
  }

  /** _is_sample_dict. `fileSize` is None when the size cannot be read, and
      `derivedIfo` is the content of the file at `IfoPathFor(dict_file)`,
      None when it does not exist or cannot be read. A captured count too
      long for `int` raises inside the `try`, which passes, so the
      dictionary is then not a sample. */
  function IsSampleDict(sourceName: String, fileSize: Option<nat>, derivedIfo: Option<String>): (sample: bool)
    ensures sample <==>
      || MentionsAny(sourceName, SamplePatterns)
      || (fileSize.Some? && fileSize.value < 50000)
      || (derivedIfo.Some? && SearchWordcount(derivedIfo.value).Some? && |WordcountDigits(derivedIfo.value).value| <= MaxStrDigits && SearchWordcount(derivedIfo.value).value < 100)
  {
    if MentionsAny(sourceName, SamplePatterns) then true
    else if fileSize.Some? && fileSize.value < 50000 then true
    else if derivedIfo.Some? then
      match WordcountDigits(derivedIfo.value)
      case Some(d) =>
        ParseIntOfDigits(d);
        (match ParseInt(d)
         case Some(n) => n < 100
         case None => false)
      case None => false
    else false
  }

  /** For a dictionary with an unremarkable name and an unreadable size,
      the captured run of digits decides the sample test: a sample exactly
      when `int` accepts the run and its value is below 100. */
  lemma SampleByDigits(name: String, ifo: String, d: String)
    requires !MentionsAny(name, SamplePatterns)
    requires WordcountDigits(ifo) == Some(d)
    ensures IsSampleDict(name, None, Some(ifo)) <==> |d| <= MaxStrDigits && DigitsValue(d) < 100
  {
    ParseIntOfDigits(d);
    if |d| <= MaxStrDigits && DigitsValue(d) < 100 {
      assert IsSampleDict(name, None, Some(ifo));
    } else {
      assert !IsSampleDict(name, None, Some(ifo));
    }
  }

  /** The run of digits right after a leading `wordcount=` is captured whole. */
  lemma WordcountDigitsOfHeader(d: String, post: String)
    requires d != [] && forall k :: 0 <= k < |d| ==> IsDigit(d[k])
    requires post == [] || !IsDigit(post[0])
    ensures WordcountDigits("wordcount=" + d + post) == Some(d)
  {
    var s := "wordcount=" + d + post;
    assert FindWordcount(s, 0) == Some(0) by { WordcountFirst(d, post); }
    assert s[10..] == d + post by { DropPrefix("wordcount=", d, post); }
    assert TakeDigits(s[10..]) == d by { TakeDigitsOfDigits(d, post); }
    assert WordcountDigits(s) == Some(TakeDigits(s[10..]));
  }

  // ---------------------------------------------------------------------
  // The .ifo wordcount line
  // ---------------------------------------------------------------------

  /** CPython's default limit on the number of digits `int` converts from
      a string (`sys.int_info.default_max_str_digits`); longer digit runs
      raise ValueError. Leading zeros count, a sign does not. */
  const MaxStrDigits := 4300

  /** Python's `int(s)` on an already stripped string, for an optional sign
      and at most `MaxStrDigits` decimal digits of any script; None where
      `int` raises. */
  function ParseInt(s: String): (r: Option<int>)
    ensures r.Some? <==>
      && s != []
      && (IsDigit(s[0]) || ((s[0] == '+' || s[0] == '-') && |s| >= 2))
      && (forall i :: 1 <= i < |s| ==> IsDigit(s[i]))
      && |s| <= MaxStrDigits + (if s[0] == '+' || s[0] == '-' then 1 else 0)
    ensures r.Some? && s[0] != '-' ==> r.value >= 0
  {
    var body := if s != [] && (s[0] == '+' || s[0] == '-') then s[1..] else s;
    if body == [] || TakeDigits(body) != body || |body| > MaxStrDigits then None
    else
      var v: int := DigitsValue(body);
      Some(if s[0] == '-' then -v else v)
  }

  /** A run of digits that is not too long parses to its value. */
  lemma ParseIntOfDigits(d: String)
    requires forall k :: 0 <= k < |d| ==> IsDigit(d[k])
    ensures ParseInt(d) == if d != [] && |d| <= MaxStrDigits then Some(DigitsValue(d)) else None
  {
    if d != [] {
      assert d[0] != '+' && d[0] != '-' by { assert IsDigit(d[0]); }
      assert TakeDigits(d) == d by {
        TakeDigitsOfDigits(d, []);
        assert d + [] == d;
      }
    }
  }

  /** `int` reads a number's decimal spelling back, unless the spelling is
      longer than `int` accepts. */
  lemma ParseIntOfShow(n: nat)
    ensures ParseInt(ShowNat(n)) == if |ShowNat(n)| <= MaxStrDigits then Some(n) else None
  {
    ParseIntOfDigits(ShowNat(n));
    DigitsValueOfShow(n);
  }

  /** Too many digits make `int` raise, even when they are zeros; a sign
      does not count towards the limit. */
  lemma ParseIntTooLong()
    ensures ParseInt(seq(MaxStrDigits + 1, _ => '1')) == None
    ensures ParseInt(seq(MaxStrDigits, _ => '0') + "7") == None
    ensures ParseInt("-" + seq(MaxStrDigits, _ => '1')).Some?
  {
    var z := seq(MaxStrDigits, _ => '0') + "7";
    assert |z| == MaxStrDigits + 1;
    var m := "-" + seq(MaxStrDigits, _ => '1');
    assert m[0] == '-' && |m| == MaxStrDigits + 1;
    assert forall i :: 1 <= i < |m| ==> m[i] == '1';
  }

  /** The part between the first and the second `=` of a line. */
  function SecondField(line: String): String {
    var parts := SplitOn(line, '=');
    if |parts| >= 2 then parts[1] else []
  }

  /** Reading the explicit `.ifo` file: the first line starting with
      `wordcount=` is parsed with `int`, which raises on anything that is
      not a number. The parsed count only sizes the progress bar, so the
      result is only whether parsing succeeded. */
  function IfoWordcountParses(lines: seq<String>): (ok: bool)
    ensures (forall k :: 0 <= k < |lines| ==> !StartsWith(lines[k], "wordcount=")) ==> ok
  {
    if lines == [] then true
    else if StartsWith(lines[0], "wordcount=") then ParseInt(Strip(SecondField(lines[0]))).Some?
    else IfoWordcountParses(lines[1..])
  }

  predicate StartsWith(s: String, p: String) {
    |p| <= |s| && s[..|p|] == p
  }

  /** Universal newlines, as a text-mode read does them: `\r\n` and a lone
      `\r` both become `\n`. */
  function TranslateNewlines(s: String): (r: String)
    ensures '\r' !in r
    ensures '\r' !in s ==> r == s
    decreases |s|
  {
    if s == [] then []
    else if s[0] == '\r' then
      "\n" + TranslateNewlines(if |s| >= 2 && s[1] == '\n' then s[2..] else s[1..])
    else [s[0]] + TranslateNewlines(s[1..])
  }

  /** A line ended by `\r\n`, by `\r` or by `\n` reads the same. */
  lemma LineEndsAlike(line: String, rest: String)
    requires '\r' !in line
    requires rest == [] || rest[0] != '\n'
    ensures TranslateNewlines(line + "\r\n" + rest) == line + "\n" + TranslateNewlines(rest)
    ensures TranslateNewlines(line + "\r" + rest) == line + "\n" + TranslateNewlines(rest)
    ensures TranslateNewlines(line + "\n" + rest) == line + "\n" + TranslateNewlines(rest)
  {
    TranslateAfterPlain(line, "\r\n" + rest);
    TranslateAfterPlain(line, "\r" + rest);
    TranslateAfterPlain(line, "\n" + rest);
    Seqs.AppendAssoc(line, "\r\n", rest);
    Seqs.AppendAssoc(line, "\r", rest);
    Seqs.AppendAssoc(line, "\n", rest);
    assert ("\r\n" + rest)[2..] == rest;
    assert ("\r" + rest)[1..] == rest;
    assert ("\n" + rest)[1..] == rest;
    Seqs.AppendAssoc(line, "\n", TranslateNewlines(rest));
  }

  lemma {:induction false} TranslateAfterPlain(a: String, b: String)
    requires '\r' !in a
    ensures TranslateNewlines(a + b) == a + TranslateNewlines(b)
    decreases |a|
  {
    if a != [] {
      assert (a + b)[1..] == a[1..] + b;
      assert a[0] in a;
      TranslateAfterPlain(a[1..], b);
      Seqs.AppendAssoc([a[0]], a[1..], TranslateNewlines(b));
      assert [a[0]] + a[1..] == a;
    } else {
      assert a + b == b;
    }
  }

  /** The pieces between newlines, each but the last given its newline back. */
  function Terminated(pieces: seq<String>): (ls: seq<String>)
    requires |pieces| >= 1
    ensures |ls| == |pieces| && ls[|ls| - 1] == pieces[|pieces| - 1]
    ensures forall k :: 0 <= k < |ls| - 1 ==> ls[k] == pieces[k] + "\n"
    decreases |pieces|
  {
    if |pieces| == 1 then pieces else [pieces[0] + "\n"] + Terminated(pieces[1..])
  }

  /** Giving each piece its newline back rebuilds the text the pieces were
      split from. */
  lemma {:induction false} TerminatedRebuilds(pieces: seq<String>, seps: String)
    requires |pieces| == |seps| + 1
    requires forall i :: 0 <= i < |seps| ==> seps[i] == '\n'
    ensures Seqs.Concat(Terminated(pieces)) == Interleave(pieces, seps)
    decreases |pieces|
  {
    if |pieces| == 1 {
      assert pieces[0] + [] == pieces[0];
    } else {
      TerminatedRebuilds(pieces[1..], seps[1..]);
      Seqs.AppendAssoc(pieces[0] + "\n", [], Seqs.Concat(Terminated(pieces[1..])));
      assert [seps[0]] == "\n";
    }
  }

  /** A file ending in a newline yields no empty line after it. */
  function DropEmptyLast(ls: seq<String>): (r: seq<String>)
    ensures Seqs.Concat(r) == Seqs.Concat(ls)
    ensures |r| <= |ls| && r == ls[..|r|]
    ensures forall k :: 0 <= k < |r| ==> r[k] != [] || (k < |ls| - 1 && ls[k] == [])
  {
    if ls != [] && ls[|ls| - 1] == [] then
      Seqs.ConcatSnoc(ls[..|ls| - 1], []);
      assert ls[..|ls| - 1] + [[]] == ls;
      assert Seqs.Concat(ls[..|ls| - 1]) + [] == Seqs.Concat(ls[..|ls| - 1]);
      ls[..|ls| - 1]
    else ls
  }

  /** A text cut at its newlines, each line keeping its own. */
  function LinesOf(t: String): seq<String> {
    DropEmptyLast(Terminated(SplitOn(t, '\n')))
  }

  lemma LinesOfRebuild(t: String)
    ensures Seqs.Concat(LinesOf(t)) == t
  {
    var pieces := SplitOn(t, '\n');
    SplitRoundTrip(t, CharIs('\n'));
    SplitPointsAreChar(t, '\n');
    TerminatedRebuilds(pieces, SplitPoints(t, CharIs('\n')));
  }

  lemma LinesOfShape(t: String)
    ensures var ls := LinesOf(t);
      && (forall k :: 0 <= k < |ls| ==> ls[k] != [])
      && (forall k :: 0 <= k < |ls| - 1 ==> ls[k][|ls[k]| - 1] == '\n')
      && (forall k, i :: 0 <= k < |ls| && 0 <= i < |ls[k]| - 1 ==> ls[k][i] != '\n')
  {
    var pieces := SplitOn(t, '\n');
    var tl := Terminated(pieces);
    var ls := LinesOf(t);
    SplitPiecesAvoid(t, CharIs('\n'), '\n');
    forall k | 0 <= k < |ls|
      ensures ls[k] != []
      ensures k < |ls| - 1 ==> ls[k][|ls[k]| - 1] == '\n'
      ensures forall i :: 0 <= i < |ls[k]| - 1 ==> ls[k][i] != '\n'
    {
      assert ls[k] == tl[k];
      if k < |tl| - 1 {
        assert tl[k] == pieces[k] + "\n";
      } else {
        assert tl[k] == pieces[k];
      }
    }
  }

  /** The lines a text-mode file iterates over, after newline translation:
      each holds one `\n`, at its end, except that the last may have none;
      a file that ends in a newline has no empty line after it; and the
      lines laid end to end are the translated text. */
  function Lines(content: String): (ls: seq<String>)
    ensures Seqs.Concat(ls) == TranslateNewlines(content)
    ensures forall k :: 0 <= k < |ls| ==> ls[k] != []
    ensures forall k :: 0 <= k < |ls| - 1 ==> ls[k][|ls[k]| - 1] == '\n'
    ensures forall k, i :: 0 <= k < |ls| && 0 <= i < |ls[k]| - 1 ==> ls[k][i] != '\n'
  {
    var t := TranslateNewlines(content);
    LinesOfRebuild(t);
    LinesOfShape(t);
    LinesOf(t)
  }

  /** A `wordcount` line ended by a lone carriage return still ends there:
      its value is read without the `\r`, so a value that is not a number
      fails to parse. */
  lemma CarriageReturnEndsWordcount()
    ensures !IfoWordcountParses(Lines("foo" + "\r" + "wordcount=abc" + "\r"))
  {
    CrLinesExample();
    WordcountAbcFails();
  }

  lemma WordcountAbcFails()
    ensures !IfoWordcountParses(["foo" + "\n", "wordcount=abc" + "\n"])
  {
    var ls := ["foo" + "\n", "wordcount=abc" + "\n"];
    assert !StartsWith(ls[0], "wordcount=");
    assert StartsWith(ls[1], "wordcount=");
    assert SecondField(ls[1]) == "abc\n" by { SecondFieldExample(); }
    assert Strip("abc\n") == "abc" by { StripExample(); }
    assert ParseInt("abc") == None by { assert TakeDigits("abc") == []; }
  }

  lemma CrLinesExample()
    ensures Lines("foo" + "\r" + "wordcount=abc" + "\r") == ["foo" + "\n", "wordcount=abc" + "\n"]
  {
    var a, b := "foo", "wordcount=abc";
    var t := a + "\n" + (b + "\n" + []);
    assert TranslateNewlines(a + "\r" + b + "\r") == t by {
      LineEndsAlike(b, []);
      Seqs.AppendAssoc(a + "\r", b, "\r");
      LineEndsAlike(a, b + "\r" + []);
      assert b + "\r" + [] == b + "\r";
    }
    assert SplitOn(t, '\n') == [a, b, []] by {
      assert Join([a, b, []], "\n") == t by {
        assert Join([b, []], "\n") == b + "\n" + [];
      }
      SplitOnJoin([a, b, []], '\n');
    }
  }

  lemma StripExample()
    ensures Strip("abc\n") == "abc"
  {
    var s := "abc\n";
    assert LeadingSpaces(s) == 0;
    assert TrailingSpaces(s[..3]) == 0;
    assert TrailingSpaces(s) == 1;
    assert s[..3] == "abc";
  }

  lemma SecondFieldExample()
    ensures SecondField("wordcount=abc" + "\n") == "abc\n"
  {
    var a, b := "wordcount", "abc\n";
    assert Join([a, b], "=") == "wordcount=abc" + "\n" by {
      assert Join([b], "=") == b;
    }
    SplitOnJoin([a, b], '=');
  }

  // ---------------------------------------------------------------------
  // import_dict_file
  // ---------------------------------------------------------------------

  /** What the file system shows import_dict_file. `ifoArg` is the content
      of the `ifo_file` argument when it is given and exists; `content` is
      the (decompressed) dictionary, None when reading or decompressing
      raises. */
  datatype Files = Files(
    dictExists: bool,
    fileSize: Option<nat>,
    derivedIfo: Option<String>,
    ifoArg: Option<String>,
    content: Option<Bytes>)

  datatype Outcome = Outcome(ok: bool, store: seq<Row>)

  predicate HasSource(store: seq<Row>, source: String) {
    exists k | 0 <= k < |store| :: store[k].source == source
  }

  /** The dictionary exists, is not skipped as a sample and its source has
      no rows yet, so the import goes on to read the files. */
  predicate Proceeds(files: Files, skipSample: bool, source: String, store: seq<Row>) {
    files.dictExists && !(skipSample && IsSampleDict(source, files.fileSize, files.derivedIfo)) && !HasSource(store, source)
  }

  /** No explicit `.ifo` file is given, or its wordcount line parses. */
  predicate IfoReadable(ifoArg: Option<String>) {
    ifoArg.None? || IfoWordcountParses(Lines(ifoArg.value))
  }

  /** import_dict_file: the returned flag and the store afterwards. */
  function ImportDictFile(files: Files, skipSample: bool, source: String, decode: Bytes -> String, store: seq<Row>): (out: Outcome)
    ensures !files.dictExists ==> out == Outcome(false, store)
    ensures files.dictExists && skipSample && IsSampleDict(source, files.fileSize, files.derivedIfo) ==> out == Outcome(false, store)
    ensures files.dictExists && !(skipSample && IsSampleDict(source, files.fileSize, files.derivedIfo)) && HasSource(store, source)
      ==> out == Outcome(true, store)
    ensures Proceeds(files, skipSample, source, store) && !IfoReadable(files.ifoArg) ==> out == Outcome(false, store)
    ensures Proceeds(files, skipSample, source, store) && IfoReadable(files.ifoArg) && files.content.None?
      ==> out == Outcome(false, store)
    ensures Proceeds(files, skipSample, source, store) && IfoReadable(files.ifoArg) && files.content.Some?
      ==> out == Outcome(true, store + StoredRows(DecodeFrom(files.content.value, 0), decode, source))
    ensures out.store == store || (!HasSource(store, source) && out.ok && |out.store| > |store| && out.store[..|store|] == store)
    ensures forall k :: |store| <= k < |out.store| ==> out.store[k].source == source
  {
    if !files.dictExists then Outcome(false, store)
    else if skipSample && IsSampleDict(source, files.fileSize, files.derivedIfo) then Outcome(false, store)
    else if HasSource(store, source) then Outcome(true, store)
    else if files.ifoArg.Some? && !IfoWordcountParses(Lines(files.ifoArg.value)) then Outcome(false, store)
    else match files.content
      case None => Outcome(false, store)
      case Some(buf) =>
        var rows := StoredRows(DecodeFrom(buf, 0), decode, source);
        Outcome(true, store + rows)
  }

  /** Importing the same files a second time returns the same flag and adds
      nothing: either the source already has rows, or the first import
      stored none. */
  lemma ImportIdempotent(files: Files, skipSample: bool, source: String, decode: Bytes -> String, store: seq<Row>)
    ensures var once := ImportDictFile(files, skipSample, source, decode, store);
      ImportDictFile(files, skipSample, source, decode, once.store) == once
  {
    var once := ImportDictFile(files, skipSample, source, decode, store);
    if once.store != store {
      var k := |store|;
      assert once.store[k].source == source;
    } else if once.ok && files.dictExists && !HasSource(store, source) && files.content.Some? {
      assert store + StoredRows(DecodeFrom(files.content.value, 0), decode, source) == store;
    }
  }

  /** The declared wordcount does not change what is imported, as long as
      its line parses. */
  lemma ImportIgnoresWordcount(files: Files, a: String, b: String, skipSample: bool, source: String, decode: Bytes -> String, store: seq<Row>)
    requires IfoWordcountParses(Lines(a)) && IfoWordcountParses(Lines(b))
    ensures ImportDictFile(files.(ifoArg := Some(a)), skipSample, source, decode, store)
         == ImportDictFile(files.(ifoArg := Some(b)), skipSample, source, decode, store)
         == ImportDictFile(files.(ifoArg := None), skipSample, source, decode, store)
  {
  }
}

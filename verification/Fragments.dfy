/**
 Splitting one raw document into fragments that encode on their own: cuts only where
 the serial scanner closes a unit at a mark, so the fragments' tokens concatenate to
 the serial stream.
 */
module Fragments {
  import opened Prelude
  import opened Bpe
  import opened BpeCuts
  import opened ForceSplit
  import opened Marks
  import opened SentencePiece
  import opened UnitScanner
  import opened ChunkPlan
  import Utf8

  /** A place where the document may be cut: the scanner closes a unit there, before a mark. */
  ghost predicate FragmentCut(v: Vocab, everyMark: bool, t: seq<Byte>, c: nat) {
    0 < c < |t| && MarkWidth(t, c, true).Some? && CutAt(v, everyMark, true, t, c)
  }

  /**
   From the text and the pieces alone: a space or a mark, and, unless every mark splits, none
   before it and no piece with an interior mark around it.
   */
  lemma FragmentCutMeans(v: Vocab, everyMark: bool, t: seq<Byte>, c: nat)
    ensures FragmentCut(v, everyMark, t, c) <==>
            && 0 < c < |t| && (t[c] == SPACE || MARK <= t[c..])
            && (everyMark || (!MarkBefore(t, c, true) && !PieceMatches(v, t, c, if t[c] == SPACE then 1 else 3)))
  {
    if 0 < c < |t| {
      if t[c] == SPACE || MARK <= t[c..] {
        EveryMarkCuts(v, true, t, c);
      }
      CutMeans(v, true, t, c);
      assert MARK <= t[c..] <==> MarkAt(t, c) by {
        assert c + 3 <= |t| ==> t[c..][..3] == [t[c], t[c + 1], t[c + 2]];
      }
      hide CutAt, PieceMatches, MarkBefore;
    }
  }

  /** Crossing pieces are plain valid text around their mark. */
  ghost predicate PlainCrossings(v: Vocab) {
    forall c :: c in AllCrossing(v) ==> Simple(c) && Utf8.Valid(c.0) && Utf8.Valid(c.1)
  }

  lemma UsableIsPlain(v: Vocab)
    requires UnitsUsable(v)
    ensures PlainCrossings(v)
  {
    CrossingsAreText(v);
  }

  /** Valid text that covers the start of a raw mark contains it. */
  lemma CoveringHoldsMark(s: seq<Byte>, t: seq<Byte>, at: nat, c: nat)
    requires Utf8.Valid(s) && c < |t| && MarkWidth(t, c, true).Some?
    requires at <= c < at + |s| && at + |s| <= |t| && t[at..at + |s|] == s
    ensures HasMark(s) || SPACE in s
  {
    hide Utf8.Valid;
    var k := c - at;
    assert forall i :: 0 <= i < |s| ==> s[i] == t[at + i];
    if s[k] == 0xE2 {
      Utf8.LeadHasRoom(s, k);
      assert s[k + 1] == t[c + 1] && s[k + 2] == t[c + 2];
      assert MarkAt(s, k);
    }
  }

  // ------------------------------------------------------------------
  // The scanner's decisions are local to one side of a cut
  // ------------------------------------------------------------------

  lemma MarkWidthLeft(t: seq<Byte>, c: nat, q: nat)
    requires q < c < |t| && MarkWidth(t, c, true).Some?
    ensures MarkWidth(t[..c], q, true) == MarkWidth(t, q, true)
  {
  }

  lemma MarkWidthRight(t: seq<Byte>, c: nat, q: nat)
    requires c + q < |t|
    ensures MarkWidth(t[c..], q, true) == MarkWidth(t, c + q, true)
  {
  }

  lemma MarkEndsLeft(t: seq<Byte>, c: nat, q: nat)
    requires q < c <= |t|
    ensures MarkEndsAt(t[..c], q, true) == MarkEndsAt(t, q, true)
  {
  }

  lemma MarkEndsRight(t: seq<Byte>, c: nat, q: nat)
    requires 0 < q && c + q < |t| && MarkWidth(t, c, true).Some?
    ensures MarkEndsAt(t[c..], q, true) == MarkEndsAt(t, c + q, true)
  {
  }

  lemma SpansLeft(v: Vocab, t: seq<Byte>, c: nat, q: nat, w: nat)
    requires PlainCrossings(v) && 0 < q && q + w <= c < |t| && MarkWidth(t, c, true).Some?
    ensures Spans(AllCrossing(v), t[..c], q, w) == Spans(AllCrossing(v), t, q, w)
  {
    hide AllCrossing, Simple, Utf8.Valid;
    var left := t[..c];
    assert left[..q] == t[..q];
    forall x | x in AllCrossing(v)
      ensures x.1 <= left[q + w..] <==> x.1 <= t[q + w..]
    {
      PostIsLocal(x, t, c, q + w);
    }
  }

  lemma PostIsLocal(x: Crossing, t: seq<Byte>, c: nat, at: nat)
    requires Simple(x) && Utf8.Valid(x.1) && at <= c < |t| && MarkWidth(t, c, true).Some?
    ensures x.1 <= t[..c][at..] <==> x.1 <= t[at..]
  {
    var post := x.1;
    if post <= t[at..] && at + |post| > c {
      assert t[at..at + |post|] == post;
      CoveringHoldsMark(post, t, at, c);
    }
  }

  lemma PreIsLocal(x: Crossing, t: seq<Byte>, c: nat, q: nat)
    requires Simple(x) && Utf8.Valid(x.0) && 0 < q && c + q <= |t| && MarkWidth(t, c, true).Some?
    ensures EndsWith(t[c..][..q], x.0) <==> EndsWith(t[..c + q], x.0)
  {
    var pre := x.0;
    if |pre| <= q {
      TailAfterCut(t, c, q, |pre|);
    } else if EndsWith(t[..c + q], pre) {
      assert t[c + q - |pre|..c + q] == pre;
      CoveringHoldsMark(pre, t, c + q - |pre|, c);
    }
  }

  lemma TailAfterCut(t: seq<Byte>, c: nat, q: nat, k: nat)
    requires c + q <= |t| && k <= q
    ensures t[c..][..q][q - k..] == t[..c + q][c + q - k..]
  {
    assert t[c..][..q] == t[c..c + q];
    assert t[c..c + q][q - k..] == t[c + q - k..c + q];
  }

  lemma SliceAfterCut(t: seq<Byte>, c: nat, a: nat, b: nat)
    requires a <= b && c + b <= |t|
    ensures t[c..][a..b] == t[c + a..c + b] && t[c..][a..] == t[c + a..]
  {
  }

  lemma SpansRight(v: Vocab, t: seq<Byte>, c: nat, q: nat, w: nat)
    requires PlainCrossings(v) && 0 < q && c + q + w <= |t| && c < |t| && MarkWidth(t, c, true).Some?
    ensures Spans(AllCrossing(v), t[c..], q, w) == Spans(AllCrossing(v), t, c + q, w)
  {
    hide AllCrossing, Simple, Utf8.Valid;
    var right := t[c..];
    assert right[q + w..] == t[c + q + w..];
    forall x | x in AllCrossing(v)
      ensures EndsWith(right[..q], x.0) <==> EndsWith(t[..c + q], x.0)
    {
      PreIsLocal(x, t, c, q);
    }
  }

  /** Before a cut, the scanner decides as if the text ended there. */
  lemma CutIsLocalLeft(v: Vocab, everyMark: bool, t: seq<Byte>, c: nat, q: nat)
    requires everyMark || PlainCrossings(v)
    requires 0 < q < c < |t| && MarkWidth(t, c, true).Some?
    ensures CutAt(v, everyMark, true, t[..c], q) == CutAt(v, everyMark, true, t, q)
  {
    hide AllCrossing, Spans, MarkEndsAt, PlainCrossings, Occurs;
    MarkWidthLeft(t, c, q);
    MarkEndsLeft(t, c, q);
    var w := MarkWidth(t, q, true);
    if w.Some? && !everyMark {
      SpansLeft(v, t, c, q, w.value);
    }
  }

  /** After a cut, the scanner decides as if the text began there. */
  lemma CutIsLocalRight(v: Vocab, everyMark: bool, t: seq<Byte>, c: nat, q: nat)
    requires everyMark || PlainCrossings(v)
    requires 0 < q && c + q < |t| && MarkWidth(t, c, true).Some?
    ensures CutAt(v, everyMark, true, t[c..], q) == CutAt(v, everyMark, true, t, c + q)
  {
    hide AllCrossing, Spans, MarkEndsAt, PlainCrossings, Occurs;
    MarkWidthRight(t, c, q);
    MarkEndsRight(t, c, q);
    var w := MarkWidth(t, c + q, true);
    if w.Some? && !everyMark {
      SpansRight(v, t, c, q, w.value);
    }
  }

  // ------------------------------------------------------------------
  // One cut splits the stream
  // ------------------------------------------------------------------

  lemma {:induction false} UnitsBeforeCut(sp: Pieces, everyMark: bool, prefix: bool, t: seq<Byte>, c: nat, start: nat,
                                          p: nat)
    requires |sp.fallback| == 256 && (everyMark || PlainCrossings(sp.v)) && FragmentCut(sp.v, everyMark, t, c)
    requires start <= p <= c && start < c
    ensures UnitsFrom(sp, everyMark, true, prefix, t, start, p)
            == UnitsFrom(sp, everyMark, true, prefix, t[..c], start, p)
               + UnitsFrom(sp, everyMark, true, prefix, t, c, c + 1)
    decreases c - p
  {
    hide PlainCrossings, CutAt, Tokens, UnitsFrom;
    var left, later := t[..c], UnitsFrom(sp, everyMark, true, prefix, t, c, c + 1);
    UnitsUnfold(sp, everyMark, true, prefix, t, start, p);
    if p == c {
      UnitsEnd(sp, everyMark, true, prefix, left, start);
      assert left[start..] == t[start..p];
    } else {
      UnitsUnfold(sp, everyMark, true, prefix, left, start, p);
      if p > 0 {
        CutIsLocalLeft(sp.v, everyMark, t, c, p);
      }
      if p > 0 && CutAt(sp.v, everyMark, true, t, p) {
        UnitsBeforeCut(sp, everyMark, prefix, t, c, p, p + 1);
        assert left[start..p] == t[start..p];
        Reassociate(Tokens(sp, true, Prefixed(prefix && start == 0, t[start..p])),
                    UnitsFrom(sp, everyMark, true, prefix, left, p, p + 1), later);
      } else {
        UnitsBeforeCut(sp, everyMark, prefix, t, c, start, p + 1);
      }
    }
  }

  lemma {:induction false} UnitsAfterCut(sp: Pieces, everyMark: bool, prefix: bool, t: seq<Byte>, c: nat, start: nat,
                                         p: nat)
    requires |sp.fallback| == 256 && (everyMark || PlainCrossings(sp.v)) && FragmentCut(sp.v, everyMark, t, c)
    requires start <= p && 0 < p && c + p <= |t|
    ensures UnitsFrom(sp, everyMark, true, prefix, t, c + start, c + p)
            == UnitsFrom(sp, everyMark, true, false, t[c..], start, p)
    decreases |t| - p
  {
    hide PlainCrossings, CutAt, Tokens, UnitsFrom;
    var right := t[c..];
    if c + p == |t| {
      UnitsEnd(sp, everyMark, true, prefix, t, c + start);
      UnitsEnd(sp, everyMark, true, false, right, start);
      SliceAfterCut(t, c, start, p);
    } else {
      UnitsUnfold(sp, everyMark, true, prefix, t, c + start, c + p);
      UnitsUnfold(sp, everyMark, true, false, right, start, p);
      CutIsLocalRight(sp.v, everyMark, t, c, p);
      if CutAt(sp.v, everyMark, true, t, c + p) {
        UnitsAfterCut(sp, everyMark, prefix, t, c, p, p + 1);
        SliceAfterCut(t, c, start, p);
      } else {
        UnitsAfterCut(sp, everyMark, prefix, t, c, start, p + 1);
      }
    }
  }

  /** Cutting the document once: the later part is encoded without any prefix. */
  lemma OneCutSplits(sp: Pieces, everyMark: bool, prefix: bool, t: seq<Byte>, c: nat)
    requires |sp.fallback| == 256 && (everyMark || PlainCrossings(sp.v)) && FragmentCut(sp.v, everyMark, t, c)
    ensures Units(sp, everyMark, true, prefix, t)
            == Units(sp, everyMark, true, prefix, t[..c]) + Units(sp, everyMark, true, false, t[c..])
  {
    hide PlainCrossings, CutAt, Tokens, UnitsFrom;
    UnitsBeforeCut(sp, everyMark, prefix, t, c, 0, 0);
    UnitsAfterCut(sp, everyMark, prefix, t, c, 0, 1);
    UnitsUnfold(sp, everyMark, true, false, t[c..], 0, 0);
  }

  // ------------------------------------------------------------------
  // Many cuts
  // ------------------------------------------------------------------

  /** The ranges tile the text, and each but the first starts at a cut. */
  ghost predicate Tiling(v: Vocab, everyMark: bool, t: seq<Byte>, ranges: seq<Range>, end: nat) {
    && end <= |t|
    && (if ranges == [] then end == 0 else ranges[|ranges| - 1].end == end)
    && (forall k :: 0 <= k < |ranges| ==> ranges[k].start < ranges[k].end <= |t|)
    && (ranges != [] ==> ranges[0].start == 0)
    && (forall k, j :: 0 < k < |ranges| && j == k - 1 ==> ranges[k].start == ranges[j].end)
    && forall k :: 0 < k < |ranges| ==> FragmentCut(v, everyMark, t, ranges[k].start)
  }

  /** Every range but the last is the shortest of at least `target` bytes that ends at a cut. */
  ghost predicate ShortestCuts(v: Vocab, everyMark: bool, t: seq<Byte>, ranges: seq<Range>, target: nat) {
    forall k :: 0 <= k < |ranges| ==> ShortestCut(v, everyMark, t, ranges[k], target)
  }

  ghost predicate ShortestCut(v: Vocab, everyMark: bool, t: seq<Byte>, r: Range, target: nat) {
    && (r.end < |t| ==> r.start + target <= r.end && FragmentCut(v, everyMark, t, r.end))
    && forall c: nat :: r.start + target <= c < r.end ==> !FragmentCut(v, everyMark, t, c)
  }

  /** Can the document be cut at `p`? */
  method CanCut(speed: Speed, ghost v: Vocab, t: seq<Byte>, p: nat) returns (r: bool)
    requires SpeedFits(v, speed) && !speed.split.WholeChunk? && 0 < p < |t|
    ensures r <==> FragmentCut(v, speed.split.EveryMark?, t, p)
  {
    hide AllCrossing, UnitsUsable, SplitsFit;
    var width := MarkWidth(t, p, true);
    if width.None? {
      return false;
    }
    var extendsRun := !speed.split.EveryMark? && (t[p - 1] == SPACE || (p >= 3 && t[p - 3..p] == MARK));
    assert (p >= 3 && t[p - 3..p] == MARK) <==> (p >= 3 && MarkAt(t, p - 3));
    var spans := PieceSpansBoundary(speed, v, t, p, width.value);
    r := !extendsRun && !spans;
  }

  lemma TilingShrinks(v: Vocab, everyMark: bool, t: seq<Byte>, ranges: seq<Range>, end: nat)
    requires Tiling(v, everyMark, t, ranges, end) && |ranges| > 1
    ensures Tiling(v, everyMark, t, ranges[..|ranges| - 1], ranges[|ranges| - 1].start)
  {
    hide FragmentCut;
    var n := |ranges| - 1;
    var before := ranges[..n];
    assert ranges[n].start == ranges[n - 1].end && before[n - 1] == ranges[n - 1];
    assert forall k :: 0 <= k < n ==> before[k] == ranges[k];
  }

  lemma NothingTiled(v: Vocab, everyMark: bool, t: seq<Byte>, target: nat)
    ensures Tiling(v, everyMark, t, [], 0) && ShortestCuts(v, everyMark, t, [], target)
  {
  }

  lemma TilingGrows(v: Vocab, everyMark: bool, t: seq<Byte>, ranges: seq<Range>, start: nat, end: nat)
    requires Tiling(v, everyMark, t, ranges, start) && start < end <= |t|
    requires ranges != [] ==> FragmentCut(v, everyMark, t, start)
    ensures Tiling(v, everyMark, t, ranges + [Range(start, end)], end)
  {
    hide FragmentCut;
  }

  lemma ShortestGrows(v: Vocab, everyMark: bool, t: seq<Byte>, ranges: seq<Range>, r: Range, target: nat)
    requires ShortestCuts(v, everyMark, t, ranges, target) && ShortestCut(v, everyMark, t, r, target)
    ensures ShortestCuts(v, everyMark, t, ranges + [r], target)
  {
    hide ShortestCut;
  }

  /** Split raw text into ranges of about `target` bytes at cuts the serial scanner also makes. */
  method SafeFragmentRanges(speed: Speed, ghost v: Vocab, t: seq<Byte>, target: nat) returns (out: seq<Range>)
    requires SpeedFits(v, speed) && !speed.split.WholeChunk?
    ensures t == [] ==> out == [Range(0, 0)]
    ensures t != [] ==> Tiling(v, speed.split.EveryMark?, t, out, |t|)
    ensures t != [] ==> ShortestCuts(v, speed.split.EveryMark?, t, out, if target == 0 then 1 else target)
  {
    hide FragmentCut, SpeedFits, ShortestCuts, Tiling;
    if t == [] {
      return [Range(0, 0)];
    }
    ghost var every := speed.split.EveryMark?;
    NothingTiled(v, every, t, if target == 0 then 1 else target);
    var size := if target == 0 then 1 else target;
    var start := 0;
    out := [];
    while start < |t|
      invariant start <= |t| && Tiling(v, every, t, out, start) && ShortestCuts(v, every, t, out, size)
      invariant out != [] && start < |t| ==> FragmentCut(v, every, t, start)
      decreases |t| - start
    {
      var probe := start + size;
      var cut := false;
      while probe < |t| && !cut
        invariant start + size <= probe
        invariant forall c: nat :: start + size <= c < probe && c < |t| ==> !FragmentCut(v, every, t, c)
        invariant cut ==> probe < |t| && FragmentCut(v, every, t, probe)
        decreases |t| - probe, !cut
      {
        cut := CanCut(speed, v, t, probe);
        probe := if cut then probe else probe + 1;
      }
      var end := if cut then probe else |t|;
      TilingGrows(v, every, t, out, start, end);
      ShortestGrows(v, every, t, out, Range(start, end), size);
      out := out + [Range(start, end)];
      start := end;
    }
  }

  /** The tokens of the fragments, the first as `First`, the others without prefix. */
  ghost function FragmentTokens(sp: Pieces, everyMark: bool, prefix: bool, t: seq<Byte>, ranges: seq<Range>): seq<Token>
    requires |sp.fallback| == 256 && forall k :: 0 <= k < |ranges| ==> ranges[k].start <= ranges[k].end <= |t|
  {
    if ranges == [] then []
    else
      var n := |ranges| - 1;
      FragmentTokens(sp, everyMark, prefix, t, ranges[..n])
      + Units(sp, everyMark, true, prefix && n == 0, t[ranges[n].start..ranges[n].end])
  }

  /** A cut of the text is a cut of every longer prefix that ends at a cut or at the end. */
  lemma CutOfPrefix(v: Vocab, everyMark: bool, t: seq<Byte>, c: nat, end: nat)
    requires (everyMark || PlainCrossings(v)) && FragmentCut(v, everyMark, t, c)
    requires c < end <= |t| && (end < |t| ==> FragmentCut(v, everyMark, t, end))
    ensures FragmentCut(v, everyMark, t[..end], c)
  {
    hide PlainCrossings, CutAt;
    if end < |t| {
      CutIsLocalLeft(v, everyMark, t, end, c);
      MarkWidthLeft(t, end, c);
    } else {
      assert t[..end] == t;
    }
  }

  /**
   Fragments encode to the serial stream: for every tiling at cuts, the fragments' tokens
   are the tokens of the text they tile.
   */
  lemma {:induction false} FragmentsMatchSerial(sp: Pieces, everyMark: bool, prefix: bool, t: seq<Byte>,
                                                ranges: seq<Range>, end: nat)
    requires |sp.fallback| == 256 && (everyMark || PlainCrossings(sp.v)) && ranges != []
    requires Tiling(sp.v, everyMark, t, ranges, end) && (end < |t| ==> FragmentCut(sp.v, everyMark, t, end))
    ensures FragmentTokens(sp, everyMark, prefix, t, ranges) == Units(sp, everyMark, true, prefix, t[..end])
    decreases |ranges|
  {
    hide FragmentCut, PlainCrossings, Units;
    var n := |ranges| - 1;
    var c := ranges[n].start;
    if n == 0 {
      assert ranges[..0] == [] && t[0..end] == t[..end];
      assert ranges[0].start == 0 && ranges[0].end == end;
      assert FragmentTokens(sp, everyMark, prefix, t, ranges[..0]) == [];
    } else {
      TilingShrinks(sp.v, everyMark, t, ranges, end);
      FragmentsMatchSerial(sp, everyMark, prefix, t, ranges[..n], c);
      CutOfPrefix(sp.v, everyMark, t, c, end);
      OneCutSplits(sp, everyMark, prefix, t[..end], c);
      assert t[..end][..c] == t[..c] && t[..end][c..] == t[c..end];
    }
  }

  /** The first fragment starts with a mark exactly when the document does. */
  lemma FirstFragmentStart(v: Vocab, everyMark: bool, t: seq<Byte>, end: nat, pos: SectionPos, prepend: RawPrepend)
    requires 0 < end <= |t| && (end < |t| ==> FragmentCut(v, everyMark, t, end))
    ensures VirtualPrefix(t[..end], pos, prepend) == VirtualPrefix(t, pos, prepend)
  {
    if end < |t| {
      MarkWidthLeft(t, end, 0);
    } else {
      assert t[..end] == t;
    }
  }

  /** Cutting at a character boundary of valid text leaves a valid fragment. */
  lemma FragmentIsText(v: Vocab, everyMark: bool, t: seq<Byte>, ranges: seq<Range>, k: nat)
    requires Utf8.Valid(t) && Tiling(v, everyMark, t, ranges, |t|) && k < |ranges|
    ensures Utf8.Valid(t[ranges[k].start..ranges[k].end])
  {
    hide Utf8.Valid, CutAt;
    var r := ranges[k];
    assert k + 1 < |ranges| ==> ranges[k + 1].start == r.end;
    assert k == 0 ==> r.start == 0;
    assert k > 0 ==> FragmentCut(v, everyMark, t, r.start);
    assert r.end < |t| ==> FragmentCut(v, everyMark, t, r.end);
    SliceIsText(t, r.start, r.end);
  }

  lemma SliceIsText(t: seq<Byte>, p: nat, q: nat)
    requires Utf8.Valid(t) && p <= q <= |t| && Utf8.IsBoundary(t, p) && Utf8.IsBoundary(t, q)
    ensures Utf8.Valid(t[p..q])
  {
    hide Utf8.Valid;
    Utf8.ValidSplit(t, q);
    var head := t[..q];
    assert p < q ==> head[p] == t[p];
    Utf8.ValidSplit(head, p);
    assert head[p..] == t[p..q];
  }

  /**
   Encode a document fragment by fragment, each on a worker with its own cache: the result
   is the serial encoding, for every target size and prepend mode.
   */
  method EncodeFragments(sp: Pieces, speed: Speed, t: seq<Byte>, target: nat, prepend: RawPrepend, front: nat -> nat)
    returns (out: seq<Token>)
    requires Ranked(sp) && SpeedFits(sp.v, speed) && !speed.split.WholeChunk?
    requires Utf8.Valid(t) && 3 * (|t| + 1) <= U32_MAX
    ensures out == if t == [] then [] else Units(sp, speed.split.EveryMark?, true, VirtualPrefix(t, First, prepend), t)
  {
    hide Ranked, SpeedFits, FragmentCut, Units, Utf8.Valid, ShortUnitsExact, LongUnitsExact, FrontFits, ShortestCuts;
    RankedFits(sp);
    ghost var every := speed.split.EveryMark?;
    var ranges := SafeFragmentRanges(speed, sp.v, t, target);
    if t == [] {
      return [];
    }
    ghost var prefix := VirtualPrefix(t, First, prepend);
    out := [];
    assert ranges[..0] == [];
    for k := 0 to |ranges|
      invariant out == FragmentTokens(sp, every, prefix, t, ranges[..k])
    {
      var r := ranges[k];
      var pos := if k == 0 then First else Continuation;
      FragmentIsText(sp.v, every, t, ranges, k);
      if k == 0 {
        FirstFragmentFollows(sp.v, every, t, ranges);
        FirstFragmentStart(sp.v, every, t, r.end, First, prepend);
        assert t[0..r.end] == t[..r.end];
      }
      var state := new EncodeState(front);
      var ids := EncodeChunkRaw(sp, speed, state, t[r.start..r.end], pos, prepend);
      assert ranges[..k + 1][..k] == ranges[..k];
      out := out + ids;
    }
    assert ranges[..|ranges|] == ranges && t[..|t|] == t;
    UsableUnlessEvery(sp.v, speed);
    FragmentsMatchSerial(sp, every, prefix, t, ranges, |t|);
  }

  lemma FirstFragmentFollows(v: Vocab, everyMark: bool, t: seq<Byte>, ranges: seq<Range>)
    requires Tiling(v, everyMark, t, ranges, |t|) && ranges != []
    ensures ranges[0].end < |t| ==> FragmentCut(v, everyMark, t, ranges[0].end)
  {
    hide FragmentCut;
    assert |ranges| > 1 ==> ranges[1].start == ranges[0].end;
  }

  lemma UsableUnlessEvery(v: Vocab, speed: Speed)
    requires SpeedFits(v, speed) && !speed.split.WholeChunk?
    ensures speed.split.EveryMark? || PlainCrossings(v)
  {
    if speed.split.SpaceRuns? {
      UsableIsPlain(v);
    }
  }
}

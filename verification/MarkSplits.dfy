/**
 Splitting at every mark is itself the merge rule: under the table without the merges
 that produce a mark inside a piece.
 */
module MarkSplits {
  import opened Prelude
  import opened Bpe
  import opened BpeCuts
  import opened ForceSplit
  import opened Marks
  import opened SentencePiece
  import opened UnitScanner
  import Utf8

  /** A mark that is not at the start. */
  predicate HoldsLaterMark(t: seq<Byte>) {
    exists k :: 0 < k < |t| && MarkAt(t, k)
  }

  /** The vocabulary with only the merges that keep marks at the start of pieces. */
  function MarkFirst(sp: Pieces): Pieces {
    sp.(m := map p | p in sp.m && !HoldsLaterMark(TokenBytes(sp.v, sp.m[p].token)) :: sp.m[p])
  }

  lemma MarkFirstFits(sp: Pieces)
    requires PiecesFit(sp)
    ensures PiecesFit(MarkFirst(sp))
  {
  }

  // ------------------------------------------------------------------
  // Inside a unit the dropped merges never apply
  // ------------------------------------------------------------------

  /** What two neighbours spell together is a slice of the whole text. */
  lemma NeighboursSpell(v: Vocab, s: seq<Token>, i: nat)
    requires i + 1 < |s|
    ensures var o, pair := |Bytes(v, s[..i])|, TokenBytes(v, s[i]) + TokenBytes(v, s[i + 1]);
            o + |pair| <= |Bytes(v, s)| && Bytes(v, s)[o..o + |pair|] == pair
  {
    hide Bytes;
    var left, pair, right := s[..i], [s[i]] + [s[i + 1]], s[i + 2..];
    assert s == left + pair + right;
    BytesConcat(v, [s[i]], [s[i + 1]]);
    BytesOne(v, s[i]);
    BytesOne(v, s[i + 1]);
    BytesConcat(v, left, pair);
    BytesConcat(v, left + pair, right);
  }

  lemma LaterMarkInSlice(t: seq<Byte>, o: nat, s: seq<Byte>)
    requires o + |s| <= |t| && t[o..o + |s|] == s && HoldsLaterMark(s)
    ensures HoldsLaterMark(t)
  {
    var k :| 0 < k < |s| && MarkAt(s, k);
    assert forall i :: 0 <= i < |s| ==> s[i] == t[o + i];
    assert MarkAt(t, o + k);
  }

  /** On symbols that spell no later mark both tables merge the same pairs. */
  lemma SameMergeable(sp: Pieces, s: seq<Token>, j: nat)
    requires PiecesFit(sp) && !HoldsLaterMark(Bytes(sp.v, s))
    ensures Mergeable(sp.m, s, j) <==> Mergeable(MarkFirst(sp).m, s, j)
  {
    hide Bytes, HoldsLaterMark;
    if Mergeable(sp.m, s, j) {
      NeighboursSpell(sp.v, s, j);
      var pair := TokenBytes(sp.v, s[j]) + TokenBytes(sp.v, s[j + 1]);
      if HoldsLaterMark(pair) {
        LaterMarkInSlice(Bytes(sp.v, s), |Bytes(sp.v, s[..j])|, pair);
      }
    }
  }

  lemma SameNext(sp: Pieces, s: seq<Token>)
    requires PiecesFit(sp) && !HoldsLaterMark(Bytes(sp.v, s))
    ensures Next(sp.m, s) == Next(MarkFirst(sp).m, s)
    ensures Next(sp.m, s).Some? ==>
              Mergeable(sp.m, s, Next(sp.m, s).value)
              && Apply(sp.m, s, Next(sp.m, s).value) == Apply(MarkFirst(sp).m, s, Next(sp.m, s).value)
  {
    hide Bytes, HoldsLaterMark, PiecesFit;
    forall j: nat
      ensures Mergeable(sp.m, s, j) <==> Mergeable(MarkFirst(sp).m, s, j)
    {
      SameMergeable(sp, s, j);
    }
    if Next(sp.m, s).Some? {
      NextIsBest(sp.m, s, Next(sp.m, s).value);
      NextIsBest(MarkFirst(sp).m, s, Next(sp.m, s).value);
    } else {
      NextIsBest(sp.m, s, 0);
      NextIsBest(MarkFirst(sp).m, s, 0);
    }
  }

  /** A run on symbols that spell no later mark is the same under both tables. */
  lemma {:induction false} SameRun(sp: Pieces, s: seq<Token>)
    requires PiecesFit(sp) && !HoldsLaterMark(Bytes(sp.v, s))
    ensures Greedy(sp.m, s) == Greedy(MarkFirst(sp).m, s)
    decreases |s|
  {
    hide Bytes, HoldsLaterMark, Next;
    SameNext(sp, s);
    if Next(sp.m, s).Some? {
      ApplyKeepsBytes(sp.m, sp.v, s, Next(sp.m, s).value);
      SameRun(sp, Apply(sp.m, s, Next(sp.m, s).value));
    }
  }

  /** A covered text without a later mark encodes alike under both tables. */
  lemma UnitIsSame(sp: Pieces, u: seq<Byte>)
    requires PiecesFit(sp) && Covered(sp, u) && !HoldsLaterMark(u)
    ensures Tokens(sp, false, u) == Tokens(MarkFirst(sp), false, u)
  {
    hide Init, Covered, HoldsLaterMark;
    InitSpells(sp, u);
    SameRun(sp, Init(sp, u));
    SameInit(sp, u);
  }

  /** Initial symbols do not depend on the merges. */
  lemma {:induction false} SameInit(sp: Pieces, t: seq<Byte>)
    requires |sp.fallback| == 256
    ensures Init(sp, t) == Init(MarkFirst(sp), t) && (Covered(sp, t) <==> Covered(MarkFirst(sp), t))
    decreases |t|
  {
    if t != [] {
      SameCharInit(sp, t[..Step(t)]);
      hide CharInit, CharCovered;
      SameInit(sp, t[Step(t)..]);
    }
  }

  lemma SameCharInit(sp: Pieces, c: seq<Byte>)
    requires |sp.fallback| == 256
    ensures CharInit(sp, c) == CharInit(MarkFirst(sp), c) && (CharCovered(sp, c) <==> CharCovered(MarkFirst(sp), c))
  {
    SameFallback(sp, c);
  }

  lemma {:induction false} SameFallback(sp: Pieces, c: seq<Byte>)
    requires |sp.fallback| == 256
    ensures FallbackInit(sp, c) == FallbackInit(MarkFirst(sp), c)
  {
    if c != [] {
      SameFallback(sp, c[1..]);
    }
  }

  // ------------------------------------------------------------------
  // Every mark is a clean cut
  // ------------------------------------------------------------------

  lemma EveryCutIsClean(sp: Pieces, t: seq<Byte>, p: nat)
    requires PiecesFit(sp) && 0 < p < |t| && CutAt(sp.v, true, false, t, p)
    ensures CleanCut(MarkFirst(sp).m, sp.v, t[..p], t[p..]) && !Utf8.Continuation(t[p])
  {
    hide Occurs, PiecesFit, Straddles, HoldsLaterMark;
    var left, right := t[..p], t[p..];
    if MarkWidth(t, p, false).Some? {
      forall q | q in MarkFirst(sp).m
        ensures !Straddles(TokenBytes(sp.v, sp.m[q].token), left, right)
      {
        StraddlerHoldsMark(sp, sp.m[q].token, left, right);
      }
    } else {
      assert left[|left| - 1] == t[p - 1] && right[0] == t[p];
      PunctuationCutIsClean(MarkFirst(sp), left, right);
    }
  }

  lemma StraddlerHoldsMark(sp: Pieces, token: Token, left: seq<Byte>, right: seq<Byte>)
    requires PiecesFit(sp) && MarkAt(right, 0)
    ensures Straddles(TokenBytes(sp.v, token), left, right) ==> HoldsLaterMark(TokenBytes(sp.v, token))
  {
    hide Utf8.Valid;
    var piece := TokenBytes(sp.v, token);
    if Straddles(piece, left, right) {
      var i: nat :| 0 < i < |piece| && i <= |left| && |piece| - i <= |right|
        && piece[..i] == left[|left| - i..] && piece[i..] == right[..|piece| - i];
      assert piece[i..] <= right;
      PieceHoldsMark(piece, right, i);
    }
  }

  // ------------------------------------------------------------------
  // The split text is one merge
  // ------------------------------------------------------------------

  /** A unit that was not cut so far holds no later mark. */
  lemma UncutHoldsNoLaterMark(v: Vocab, t: seq<Byte>, start: nat, p: nat)
    requires start <= p <= |t| && forall r :: start < r < p ==> !CutAt(v, true, false, t, r)
    ensures !HoldsLaterMark(t[start..p])
  {
    var u := t[start..p];
    forall k | 0 < k < |u|
      ensures !MarkAt(u, k)
    {
      assert !CutAt(v, true, false, t, start + k);
      assert forall i :: 0 <= i < |u| ==> u[i] == t[start + i];
    }
  }

  lemma {:induction false} EveryMarkFrom(sp: Pieces, t: seq<Byte>, start: nat, p: nat)
    requires PiecesFit(sp) && start <= p <= |t| && start < |t| && (start > 0 ==> start < p)
    requires forall r :: start < r < p ==> !CutAt(sp.v, true, false, t, r)
    requires Utf8.Valid(t[start..]) && Covered(sp, t[start..])
    ensures UnitsFrom(sp, true, false, false, t, start, p) == Tokens(MarkFirst(sp), false, t[start..])
    decreases |t| - p
  {
    hide PiecesFit, CutAt, Covered, Utf8.Valid, Tokens, UnitsFrom, HoldsLaterMark;
    FallbackFits(sp);
    if p == |t| {
      UnitsEnd(sp, true, false, false, t, start);
      UncutHoldsNoLaterMark(sp.v, t, start, p);
      assert t[start..p] == t[start..];
      UnitIsSame(sp, t[start..]);
    } else {
      UnitsUnfold(sp, true, false, false, t, start, p);
      if p > 0 && CutAt(sp.v, true, false, t, p) {
        UnitSplits(sp, t, start, p);
        EveryMarkFrom(sp, t, p, p + 1);
      } else {
        EveryMarkFrom(sp, t, start, p + 1);
      }
    }
  }

  lemma UnitSplits(sp: Pieces, t: seq<Byte>, start: nat, p: nat)
    requires PiecesFit(sp) && start < p < |t| && CutAt(sp.v, true, false, t, p)
    requires forall r :: start < r < p ==> !CutAt(sp.v, true, false, t, r)
    requires Utf8.Valid(t[start..]) && Covered(sp, t[start..])
    ensures Tokens(MarkFirst(sp), false, t[start..])
            == Tokens(sp, false, t[start..p]) + Tokens(MarkFirst(sp), false, t[p..])
    ensures Utf8.Valid(t[p..]) && Covered(sp, t[p..])
  {
    hide PiecesFit, CutAt, Covered, Utf8.Valid, Tokens, CleanCut, HoldsLaterMark;
    FallbackFits(sp);
    var sp', a, b := MarkFirst(sp), t[start..p], t[p..];
    EveryCutIsClean(sp, t, p);
    UnitEndsValid(t, start, p, false);
    assert t[start..] == a + b;
    SuffixIsClean(sp'.m, sp.v, t, start, p);
    MarkFirstFits(sp);
    SameInit(sp, a + b);
    CutSplitsTokens(sp', false, a, b);
    SameInit(sp, a);
    SameInit(sp, b);
    UncutHoldsNoLaterMark(sp.v, t, start, p);
    UnitIsSame(sp, a);
  }

  lemma SuffixIsClean(m: Merges, v: Vocab, t: seq<Byte>, start: nat, p: nat)
    requires start < p < |t| && CleanCut(m, v, t[..p], t[p..])
    ensures CleanCut(m, v, t[start..p], t[p..])
  {
    hide CleanCut;
    var left, unit := t[..p], t[start..p];
    assert unit == left[|left| - |unit|..];
    CleanCutNarrows(m, v, left, t[p..], unit, t[p..]);
  }

  /**
   Splitting at every mark encodes covered text to one merge of the whole text under the
   table without the merges that put a mark inside a piece.
   */
  lemma EveryMarkIsOneMerge(sp: Pieces, t: seq<Byte>)
    requires PiecesFit(sp) && Utf8.Valid(t) && Covered(sp, t)
    ensures Units(sp, true, false, false, t) == Greedy(MarkFirst(sp).m, Init(sp, t))
  {
    hide PiecesFit, Covered, Utf8.Valid, CutAt;
    FallbackFits(sp);
    SameInit(sp, t);
    assert t[0..] == t;
    if t == [] {
      NextIsBest(MarkFirst(sp).m, [], 0);
    } else {
      EveryMarkFrom(sp, t, 0, 0);
    }
  }
}

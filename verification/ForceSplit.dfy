/**
 Forced splits: a pretoken is cut between two bytes that sit next to each other in
 no vocabulary entry, and each piece is merged on its own.
 */
module ForceSplit {
  import opened Prelude
  import opened Bpe
  import opened BpeCuts
  import opened MergeScan
  import opened MergeEngine
  import opened FromRanks
  import Utf8

  const BYTE_PAIRS: nat := 65536

  function Key(left: Byte, right: Byte): (k: nat)
    ensures k < BYTE_PAIRS
  {
    left * 256 + right
  }

  lemma KeyInjective(a: Byte, b: Byte, c: Byte, d: Byte)
    ensures Key(a, b) == Key(c, d) <==> a == c && b == d
  {
  }

  /** `left` stands immediately before `right` somewhere in `t`. */
  ghost predicate AdjacentIn(t: seq<Byte>, left: Byte, right: Byte) {
    exists i: nat :: i + 1 < |t| && t[i] == left && t[i + 1] == right
  }

  ghost predicate Occurs(v: Vocab, left: Byte, right: Byte) {
    exists k :: 0 <= k < |v| && AdjacentIn(v[k], left, right)
  }

  /** The set of byte pairs that occur inside some vocabulary entry. */
  class Bigrams {
    const bits: array<bool>

    ghost predicate Valid() {
      bits.Length == BYTE_PAIRS
    }

    predicate MayJoin(left: Byte, right: Byte)
      requires Valid()
      reads bits
    {
      bits[Key(left, right)]
    }

    /** The set holds exactly the byte pairs inside the vocabulary's entries. */
    ghost predicate Holds(v: Vocab)
      reads bits
    {
      Valid() && forall left: Byte, right: Byte :: MayJoin(left, right) <==> Occurs(v, left, right)
    }

    constructor (v: Vocab)
      ensures Holds(v) && fresh(bits)
    {
      bits := new bool[BYTE_PAIRS](_ => false);
      new;
      for k := 0 to |v|
        invariant forall left: Byte, right: Byte :: MayJoin(left, right) <==> Occurs(v[..k], left, right)
      {
        ghost var was := bits[..];
        var i := 1;
        while i < |v[k]|
          invariant 1 <= i && (|v[k]| > 0 ==> i <= |v[k]|)
          invariant forall left: Byte, right: Byte ::
              MayJoin(left, right) <==> was[Key(left, right)] || (|v[k]| > 0 && AdjacentIn(v[k][..i], left, right))
        {
          bits[Key(v[k][i - 1], v[k][i])] := true;
          forall left: Byte, right: Byte
            ensures MayJoin(left, right) <==> was[Key(left, right)] || AdjacentIn(v[k][..i + 1], left, right)
          {
            KeyInjective(left, right, v[k][i - 1], v[k][i]);
            AdjacentGrows(v[k], i, left, right);
          }
          i := i + 1;
        }
        assert |v[k]| > 0 ==> v[k][..|v[k]|] == v[k];
        forall left: Byte, right: Byte
          ensures Occurs(v[..k + 1], left, right) <==> Occurs(v[..k], left, right) || AdjacentIn(v[k], left, right)
        {
          OccursGrows(v, k, left, right);
        }
        assert forall left: Byte, right: Byte :: was[Key(left, right)] <==> Occurs(v[..k], left, right);
      }
      assert v[..|v|] == v;
    }
  }

  lemma AdjacentGrows(t: seq<Byte>, i: nat, left: Byte, right: Byte)
    requires 0 < i < |t|
    ensures AdjacentIn(t[..i + 1], left, right) <==>
              AdjacentIn(t[..i], left, right) || (t[i - 1] == left && t[i] == right)
  {
    if AdjacentIn(t[..i], left, right) {
      var j: nat :| j + 1 < i && t[..i][j] == left && t[..i][j + 1] == right;
      assert t[..i + 1][j] == left && t[..i + 1][j + 1] == right;
    }
    if t[i - 1] == left && t[i] == right {
      assert t[..i + 1][i - 1] == left && t[..i + 1][i - 1 + 1] == right;
    }
    if AdjacentIn(t[..i + 1], left, right) {
      var j: nat :| j + 1 < i + 1 && t[..i + 1][j] == left && t[..i + 1][j + 1] == right;
      if j + 1 < i {
        assert t[..i][j] == left && t[..i][j + 1] == right;
      }
    }
  }

  lemma OccursGrows(v: Vocab, k: nat, left: Byte, right: Byte)
    requires k < |v|
    ensures Occurs(v[..k + 1], left, right) <==> Occurs(v[..k], left, right) || AdjacentIn(v[k], left, right)
  {
    if Occurs(v[..k], left, right) {
      var j :| 0 <= j < k && AdjacentIn(v[..k][j], left, right);
      assert v[..k + 1][j] == v[..k][j];
    }
    if AdjacentIn(v[k], left, right) {
      assert v[..k + 1][k] == v[k];
    }
    if Occurs(v[..k + 1], left, right) {
      var j :| 0 <= j < k + 1 && AdjacentIn(v[..k + 1][j], left, right);
      if j < k {
        assert v[..k][j] == v[..k + 1][j];
      }
    }
  }

  /** Position `p` is a forced cut: the pair around it occurs in no entry. */
  ghost predicate ForcedCut(v: Vocab, t: seq<Byte>, p: nat) {
    0 < p < |t| && !Occurs(v, t[p - 1], t[p])
  }

  lemma StraddlingHoldsPair(token: seq<Byte>, t: seq<Byte>, p: nat)
    requires 0 < p < |t| && Straddles(token, t[..p], t[p..])
    ensures AdjacentIn(token, t[p - 1], t[p])
  {
    var i: nat :|
      && 0 < i < |token| && i <= p && |token| - i <= |t| - p
      && token[..i] == t[..p][p - i..] && token[i..] == t[p..][..|token| - i];
    assert token[i - 1] == token[..i][i - 1] == t[p - 1];
    assert token[i - 1 + 1] == token[i..][0] == t[p];
  }

  /** No token of the vocabulary can straddle a forced cut. */
  lemma ForcedCutIsClean(m: Merges, v: Vocab, t: seq<Byte>, p: nat)
    requires ForcedCut(v, t, p)
    ensures CleanCut(m, v, t[..p], t[p..])
  {
    forall q | q in m
      ensures !Straddles(TokenBytes(v, m[q].token), t[..p], t[p..])
    {
      if Straddles(TokenBytes(v, m[q].token), t[..p], t[p..]) {
        StraddlingHoldsPair(TokenBytes(v, m[q].token), t, p);
      }
    }
  }

  /** Pieces of `t` at forced cuts, with their initial symbols. */
  ghost predicate ForcedPieces(v: Vocab, base: ByteMap, t: seq<Byte>, end: nat, parts: seq<seq<Token>>, cuts: seq<nat>)
    requires end <= |t|
  {
    && PartsSpell(v, parts, t[..end], cuts)
    && Flatten(parts) == ByteInit(base, t[..end])
    && forall k :: 0 < k < |parts| ==> ForcedCut(v, t, cuts[k])
  }

  lemma ByteInitPrefix(base: ByteMap, t: seq<Byte>, start: nat, p: nat)
    requires start <= p <= |t|
    ensures ByteInit(base, t[..p]) == ByteInit(base, t[..start]) + ByteInit(base, t[start..p])
  {
  }

  lemma ExtendPieces(v: Vocab, base: ByteMap, t: seq<Byte>, start: nat, parts: seq<seq<Token>>, cuts: seq<nat>, p: nat)
    requires start <= p <= |t| && SpellsBytes(v, base, t)
    requires ForcedPieces(v, base, t, start, parts, cuts)
    requires start > 0 ==> ForcedCut(v, t, start)
    requires start == 0 ==> parts == []
    ensures ForcedPieces(v, base, t, p, parts + [ByteInit(base, t[start..p])], cuts + [p])
  {
    hide Bytes, Flatten, GreedyEach, Greedy;
    var x := ByteInit(base, t[start..p]);
    assert cuts[|cuts| - 1] == start;
    ByteInitSpells(v, base, t[start..p]);
    AppendSpells(v, parts, t, cuts, p, x);
    hide PartsSpell;
    AppendPart(map[], parts, x);
    ByteInitPrefix(base, t, start, p);
  }

  /** Cutting at any choice of forced cuts and merging piecewise changes nothing. */
  lemma ForcedSplitExact(m: Merges, v: Vocab, base: ByteMap, t: seq<Byte>, parts: seq<seq<Token>>, cuts: seq<nat>)
    requires Consistent(m, v) && SpellsBytes(v, base, t)
    requires ForcedPieces(v, base, t, |t|, parts, cuts)
    ensures Greedy(m, ByteInit(base, t)) == GreedyEach(m, parts)
  {
    assert t[..|t|] == t;
    ByteInitSpells(v, base, t);
    forall k | 0 < k < |parts|
      ensures CleanCut(m, v, t[..cuts[k]], t[cuts[k]..])
    {
      ForcedCutIsClean(m, v, t, cuts[k]);
    }
    SplitText(m, v, parts, t, cuts);
  }

  // ------------------------------------------------------------------
  // Bytes without a token of their own
  // ------------------------------------------------------------------

  /**
   One forced cut splits the merge, under every table whose vocabulary loads and has a token
   for each byte in `known`.
   */
  ghost predicate SplitsExactOver(known: set<Byte>) {
    forall m: Merges, v: Vocab, t: seq<Byte>, p: nat ::
      Consistent(m, v) && CoversText(v) && ForcedCut(v, t, p)
      && (forall b :: b in known && b in t ==> FirstId(v, [b]).Some?)
      ==> Greedy(m, ByteInit(EncoderMap(v), t))
          == Greedy(m, ByteInit(EncoderMap(v), t[..p])) + Greedy(m, ByteInit(EncoderMap(v), t[p..]))
  }

  lemma KnownBytesSpell(v: Vocab, t: seq<Byte>)
    requires forall b :: b in t ==> FirstId(v, [b]).Some?
    ensures SpellsBytes(v, EncoderMap(v), t)
  {
    forall i | 0 <= i < |t|
      ensures TokenBytes(v, EncoderMap(v)[t[i]]) == [t[i]]
    {
      assert t[i] in t;
    }
  }

  lemma OneForcedCut(m: Merges, v: Vocab, base: ByteMap, t: seq<Byte>, p: nat)
    requires Consistent(m, v) && SpellsBytes(v, base, t) && ForcedCut(v, t, p)
    ensures Greedy(m, ByteInit(base, t)) == Greedy(m, ByteInit(base, t[..p])) + Greedy(m, ByteInit(base, t[p..]))
  {
    hide Bytes, Solid, SpellsBytes;
    assert SpellsBytes(v, base, t[..p]) && SpellsBytes(v, base, t[p..]) by {
      PartsSpelled(v, base, t, p);
    }
    ByteInitSpells(v, base, t);
    ByteInitSpells(v, base, t[..p]);
    ByteInitSpells(v, base, t[p..]);
    assert ByteInit(base, t) == ByteInit(base, t[..p]) + ByteInit(base, t[p..]);
    ForcedCutIsClean(m, v, t, p);
    SplitAtCleanCut(m, v, ByteInit(base, t[..p]), ByteInit(base, t[p..]));
  }

  lemma PartsSpelled(v: Vocab, base: ByteMap, t: seq<Byte>, p: nat)
    requires SpellsBytes(v, base, t) && p <= |t|
    ensures SpellsBytes(v, base, t[..p]) && SpellsBytes(v, base, t[p..])
  {
  }

  /** Every byte but `x` has a token, byte 0 the token 0; one entry holds byte 0 twice. */
  function VocabWithout(x: Byte): Vocab {
    seq(256, b requires 0 <= b < 256 => if b == x then [] else [b]) + [[0, 0]]
  }

  function JoinFirst(): Merges {
    map[(0, 0) := Merged(256, 256)]
  }

  lemma WithoutIds(x: Byte)
    requires x != 0
    ensures var v := VocabWithout(x);
            && v[0] == [0] && v[256] == [0, 0] && |v| == 257
            && FirstId(v, [x]).None? && FirstId(v, [0]) == Some(0) && LastId(v, [0]) == Some(0)
            && Distinct(v) && forall b: Byte :: b != x ==> FirstId(v, [b]).Some?
  {
    var v := VocabWithout(x);
    assert v[0] == [0] && v[256] == [0, 0];
    assert forall b: Byte :: b != x ==> v[b] == [b];
  }

  lemma WithoutIsCut(x: Byte)
    requires x != 0
    ensures ForcedCut(VocabWithout(x), [x, 0], 1)
  {
    var v := VocabWithout(x);
    forall k | 0 <= k < |v|
      ensures !AdjacentIn(v[k], x, 0)
    {
      assert k < 256 ==> |v[k]| <= 1;
    }
  }

  lemma JoinedMerge()
    ensures Greedy(JoinFirst(), [0, 0]) == [256] && Greedy(JoinFirst(), [0]) == [0]
  {
    NextIsBest(JoinFirst(), [0, 0], 0);
    assert Apply(JoinFirst(), [0, 0], 0) == [256];
    ShortIsDone(JoinFirst(), [256]);
    ShortIsDone(JoinFirst(), [0]);
  }

  /** The vocabulary without `x` rebuilds to the one merge of its pair. */
  lemma WithoutRebuilds(x: Byte)
    requires x != 0
    ensures TableAfter(VocabWithout(x), 257) == Some(JoinFirst())
  {
    hide TableAfter, LastId, Greedy;
    WithoutIds(x);
    var v := VocabWithout(x);
    ShortEntriesAddNothing(v, 256);
    assert LoadSymbol(v, 0) == Some(0);
    var s := LoadSymbols(v, [0, 0]);
    assert s.Some? && LoadSymbol(v, [0, 0][0]) == Some(s.value[0]) && LoadSymbol(v, [0, 0][1]) == Some(s.value[1]);
    assert s.value == [0, 0];
    NothingMerges([0, 0]);
    TableAfterOne(v, [0, 0]);
  }

  lemma TableAfterOne(v: Vocab, s: seq<Token>)
    requires v != [] && |v[|v| - 1]| >= 2 && |s| == 2 && LoadSymbols(v, v[|v| - 1]) == Some(s)
    requires TableAfter(v, |v| - 1) == Some(map[]) && Greedy(map[], s) == s
    ensures TableAfter(v, |v|) == Some(map[(s[0], s[1]) := Merged(|v| - 1, |v| - 1)])
  {
    hide LoadSymbols, Greedy;
  }

  /**
   A byte outside UTF-8 may lack a token in a vocabulary that loads. It is mapped to id 0 and
   merges across a cut no entry joins.
   */
  lemma PlaceholderCrossesCut(x: Byte)
    requires !InText(x)
    ensures var v, t := VocabWithout(x), [x, 0];
            && TableAfter(v, |v|) == Some(JoinFirst()) && CoversText(v) && Distinct(v)
            && Consistent(JoinFirst(), v) && ForcedCut(v, t, 1) && (forall b: Byte :: b != x ==> FirstId(v, [b]).Some?)
            && Greedy(JoinFirst(), ByteInit(EncoderMap(v), t)) == [256]
            && Greedy(JoinFirst(), ByteInit(EncoderMap(v), t[..1])) == [0]
            && Greedy(JoinFirst(), ByteInit(EncoderMap(v), t[1..])) == [0]
  {
    WithoutIds(x);
    WithoutIsCut(x);
    WithoutRebuilds(x);
    JoinedMerge();
    hide FirstId, ForcedCut, VocabWithout, Greedy, TableAfter, Distinct;
    var base := EncoderMap(VocabWithout(x));
    assert base[x] == 0 && base[0] == 0;
    var t := [x, 0];
    assert t[..1] == [x] && t[1..] == [0];
    assert ByteInit(base, t) == [0, 0] && ByteInit(base, t[..1]) == [0] && ByteInit(base, t[1..]) == [0];
  }

  /**
   Forced splits are exact on all byte strings over loaded vocabularies that have a token for
   each byte in `known` if and only if `known` holds the bytes that never occur in UTF-8: a
   byte that falls back to the placeholder can always be made to merge across a forced cut.
   */
  lemma ByteTokensAreNeeded(known: set<Byte>)
    ensures SplitsExactOver(known) <==> forall b: Byte :: !InText(b) ==> b in known
  {
    hide Consistent, Occurs, FirstId, SpellsBytes, VocabWithout, Greedy, TableAfter, Distinct;
    if forall b: Byte :: !InText(b) ==> b in known {
      forall m: Merges, v: Vocab, t: seq<Byte>, p: nat |
        Consistent(m, v) && CoversText(v) && ForcedCut(v, t, p)
        && (forall b :: b in known && b in t ==> FirstId(v, [b]).Some?)
        ensures p <= |t|
        ensures Greedy(m, ByteInit(EncoderMap(v), t))
                == Greedy(m, ByteInit(EncoderMap(v), t[..p])) + Greedy(m, ByteInit(EncoderMap(v), t[p..]))
      {
        assert forall b :: b in t ==> FirstId(v, [b]).Some?;
        KnownBytesSpell(v, t);
        OneForcedCut(m, v, EncoderMap(v), t, p);
      }
    } else {
      var x: Byte :| !InText(x) && x !in known;
      PlaceholderCrossesCut(x);
    }
  }

  /** On valid text under a vocabulary that loads, every forced cut splits the merge. */
  lemma TextSplitsExactly(m: Merges, v: Vocab, t: seq<Byte>, p: nat)
    requires Consistent(m, v) && CoversText(v) && Utf8.Valid(t) && ForcedCut(v, t, p)
    ensures Greedy(m, ByteInit(EncoderMap(v), t))
            == Greedy(m, ByteInit(EncoderMap(v), t[..p])) + Greedy(m, ByteInit(EncoderMap(v), t[p..]))
  {
    TextIsSpelled(v, t);
    OneForcedCut(m, v, EncoderMap(v), t, p);
  }

  /** Merge one byte string from its single-byte tokens. */
  method MergeBytes(m: Merges, base: ByteMap, t: seq<Byte>) returns (ids: seq<Token>)
    requires RanksFit(m) && IdRanked(m) && |t| <= U32_MAX
    ensures ids == Greedy(Visible(m), ByteInit(base, t))
  {
    var symbols := new Token[|t|](i requires 0 <= i < |t| => base[t[i]]);
    assert symbols[..] == ByteInit(base, t);
    var len := MergeByRank(m, symbols);
    ids := symbols[..len];
  }

  /** The pieces before the last forced cut, merged one by one. */
  method EncodePieces(m: Merges, ghost v: Vocab, base: ByteMap, bigrams: Bigrams, t: seq<Byte>)
    returns (out: seq<Token>, start: nat, ghost parts: seq<seq<Token>>, ghost cuts: seq<nat>)
    requires RanksFit(m) && IdRanked(m) && SpellsBytes(v, base, t) && |t| <= U32_MAX
    requires bigrams.Holds(v)
    ensures start <= |t| && ForcedPieces(v, base, t, start, parts, cuts)
    ensures start > 0 ==> ForcedCut(v, t, start)
    ensures start == 0 ==> parts == [] && forall q: nat :: !ForcedCut(v, t, q)
    ensures out == GreedyEach(Visible(m), parts)
  {
    hide ForcedPieces, Occurs, SpellsBytes;
    out, start, parts, cuts := [], 0, [], [0];
    NoPieces(v, base, t);
    var p := 1;
    while p < |t|
      invariant start < p && (|t| > 0 ==> p <= |t|) && (|t| == 0 ==> start == 0)
      invariant start > 0 ==> ForcedCut(v, t, start)
      invariant start == 0 ==> parts == [] && forall q: nat :: q < p ==> !ForcedCut(v, t, q)
      invariant ForcedPieces(v, base, t, start, parts, cuts)
      invariant out == GreedyEach(Visible(m), parts)
    {
      if !bigrams.MayJoin(t[p - 1], t[p]) {
        var piece := MergeBytes(m, base, t[start..p]);
        ExtendPieces(v, base, t, start, parts, cuts, p);
        AppendPart(Visible(m), parts, ByteInit(base, t[start..p]));
        parts, cuts := parts + [ByteInit(base, t[start..p])], cuts + [p];
        out, start := out + piece, p;
      }
      p := p + 1;
    }
  }

  lemma NoPieces(v: Vocab, base: ByteMap, t: seq<Byte>)
    ensures ForcedPieces(v, base, t, 0, [], [0])
  {
    assert ByteInit(base, t[..0]) == [];
  }

  lemma CutsExist(v: Vocab, t: seq<Byte>)
    ensures (exists p: nat :: ForcedCut(v, t, p)) <==> exists p: nat :: 0 < p < |t| && !Occurs(v, t[p - 1], t[p])
    ensures forall p: nat :: ForcedCut(v, t, p) ==> 0 < p < |t|
  {
    if exists p: nat :: ForcedCut(v, t, p) {
      var p: nat :| ForcedCut(v, t, p);
      assert !Occurs(v, t[p - 1], t[p]);
    }
    if exists p: nat :: 0 < p < |t| && !Occurs(v, t[p - 1], t[p]) {
      var p: nat :| 0 < p < |t| && !Occurs(v, t[p - 1], t[p]);
      assert ForcedCut(v, t, p);
    }
  }

  /**
   Cut at every forced position and merge each piece; give up when there is none.
   The ids equal one merge of the whole pretoken.
   */
  method EncodeForceSplit(m: Merges, ghost v: Vocab, base: ByteMap, bigrams: Bigrams, t: seq<Byte>)
    returns (ids: Option<seq<Token>>)
    requires RanksFit(m) && IdRanked(m) && Consistent(m, v) && SpellsBytes(v, base, t) && |t| <= U32_MAX
    requires bigrams.Holds(v)
    ensures ids.Some? <==> exists p: nat :: ForcedCut(v, t, p)
    ensures ids.Some? <==> exists p: nat :: 0 < p < |t| && !Occurs(v, t[p - 1], t[p])
    ensures ids.Some? ==> ids.value == Greedy(Visible(m), ByteInit(base, t))
  {
    CutsExist(v, t);
    hide ForcedPieces, Occurs, SpellsBytes, ForcedCut;
    var out, start;
    ghost var parts, cuts;
    out, start, parts, cuts := EncodePieces(m, v, base, bigrams, t);
    if start == 0 {
      return None;
    }
    var piece := MergeBytes(m, base, t[start..]);
    var last := ByteInit(base, t[start..|t|]);
    assert t[start..] == t[start..|t|];
    ExtendPieces(v, base, t, start, parts, cuts, |t|);
    AppendPart(Visible(m), parts, last);
    ForcedSplitExact(Visible(m), v, base, t, parts + [last], cuts + [|t|]);
    ids := Some(out + piece);
  }
}

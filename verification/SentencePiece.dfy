/**
 SentencePiece encoding: initial symbols per character, where the unit scanner may
 cut, and why cutting there changes no token.
 */
module SentencePiece {
  import opened Prelude
  import opened Bpe
  import opened BpeCuts
  import opened FromRanks
  import opened ForceSplit
  import opened Marks
  import Utf8

  /** Merges, piece bytes by id, and the byte-fallback token of each byte that has one. */
  datatype Pieces = Pieces(m: Merges, v: Vocab, fallback: seq<Option<Token>>)

  /** Fallback tokens are single bytes, and pieces of two or more bytes are valid UTF-8. */
  ghost predicate PiecesFit(sp: Pieces) {
    && Consistent(sp.m, sp.v) && |sp.fallback| == 256
    && (forall b: Byte :: sp.fallback[b].Some? ==> TokenBytes(sp.v, sp.fallback[b].value) == [b])
    && forall i :: 0 <= i < |sp.v| && |sp.v[i]| >= 2 ==> Utf8.Valid(sp.v[i])
  }

  // ------------------------------------------------------------------
  // Initial symbols
  // ------------------------------------------------------------------

  /** Bytes without a fallback token leave no symbol. */
  function FallbackInit(sp: Pieces, c: seq<Byte>): seq<Token>
    requires |sp.fallback| == 256
  {
    if c == [] then []
    else (if sp.fallback[c[0]].Some? then [sp.fallback[c[0]].value] else []) + FallbackInit(sp, c[1..])
  }

  /** A character's own piece, else its bytes. */
  function CharInit(sp: Pieces, c: seq<Byte>): seq<Token>
    requires |sp.fallback| == 256
  {
    var id := LastId(sp.v, c);
    if id.Some? then [id.value] else FallbackInit(sp, c)
  }

  /** Width of the character at the start of `t`. */
  function Step(t: seq<Byte>): (w: nat)
    requires t != []
    ensures 1 <= w <= |t|
  {
    if Utf8.CharWidth(t) == 0 then 1 else Utf8.CharWidth(t)
  }

  function Init(sp: Pieces, t: seq<Byte>): seq<Token>
    requires |sp.fallback| == 256
    decreases |t|
  {
    if t == [] then [] else CharInit(sp, t[..Step(t)]) + Init(sp, t[Step(t)..])
  }

  /** Every character has a piece of its own or fallback tokens for all its bytes. */
  predicate Covered(sp: Pieces, t: seq<Byte>)
    requires |sp.fallback| == 256
    decreases |t|
  {
    t == [] || (CharCovered(sp, t[..Step(t)]) && Covered(sp, t[Step(t)..]))
  }

  predicate CharCovered(sp: Pieces, c: seq<Byte>)
    requires |sp.fallback| == 256
  {
    LastId(sp.v, c).Some? || forall i :: 0 <= i < |c| ==> sp.fallback[c[i]].Some?
  }

  lemma StepLocal(t: seq<Byte>, u: seq<Byte>)
    requires t != [] && Utf8.Valid(t)
    ensures Step(t + u) == Step(t) && (t + u)[..Step(t)] == t[..Step(t)] && (t + u)[Step(t)..] == t[Step(t)..] + u
  {
    hide Utf8.CharWidth;
    Utf8.CharWidthLocal(t, u);
  }

  lemma {:induction false} InitConcat(sp: Pieces, t: seq<Byte>, u: seq<Byte>)
    requires |sp.fallback| == 256 && Utf8.Valid(t)
    ensures Init(sp, t + u) == Init(sp, t) + Init(sp, u)
    ensures Covered(sp, t + u) <==> Covered(sp, t) && Covered(sp, u)
    decreases |t|
  {
    hide CharInit, CharCovered;
    if t == [] {
      assert t + u == u;
    } else {
      StepLocal(t, u);
      InitConcat(sp, t[Step(t)..], u);
      Reassociate(CharInit(sp, t[..Step(t)]), Init(sp, t[Step(t)..]), Init(sp, u));
    }
  }

  // ------------------------------------------------------------------
  // What the initial symbols are
  // ------------------------------------------------------------------

  /** The positions of `c` whose bytes have a fallback token, in order. */
  ghost predicate FallbackPlaces(sp: Pieces, c: seq<Byte>, at: seq<nat>)
    requires |sp.fallback| == 256
  {
    && (forall j :: 0 <= j < |at| ==> at[j] < |c|) && (forall i, j :: 0 <= i < j < |at| ==> at[i] < at[j])
    && forall p: nat :: p in at <==> p < |c| && sp.fallback[c[p]].Some?
  }

  lemma {:induction false} FallbackListed(sp: Pieces, c: seq<Byte>) returns (at: seq<nat>)
    requires |sp.fallback| == 256
    ensures FallbackPlaces(sp, c, at) && |FallbackInit(sp, c)| == |at|
    ensures forall j :: 0 <= j < |at| ==> sp.fallback[c[at[j]]] == Some(FallbackInit(sp, c)[j])
  {
    at := [];
    if c != [] {
      var rest := FallbackListed(sp, c[1..]);
      var shifted := seq(|rest|, j requires 0 <= j < |rest| => rest[j] + 1);
      at := (if sp.fallback[c[0]].Some? then [0] else []) + shifted;
      FirstPlace(sp, c, rest, shifted, at);
    }
  }

  lemma FirstPlace(sp: Pieces, c: seq<Byte>, rest: seq<nat>, shifted: seq<nat>, at: seq<nat>)
    requires |sp.fallback| == 256 && c != [] && FallbackPlaces(sp, c[1..], rest)
    requires |shifted| == |rest| && forall j :: 0 <= j < |rest| ==> shifted[j] == rest[j] + 1
    requires at == (if sp.fallback[c[0]].Some? then [0] else []) + shifted
    ensures FallbackPlaces(sp, c, at)
  {
    forall p: nat
      ensures p in at <==> p < |c| && sp.fallback[c[p]].Some?
    {
      if p > 0 {
        assert p in shifted <==> p - 1 in rest by {
          if p - 1 in rest {
            var j :| 0 <= j < |rest| && rest[j] == p - 1;
            assert shifted[j] == p;
          }
        }
      } else {
        assert p !in shifted;
      }
    }
  }

  /**
   The symbols of one character: its own piece if it has one, else the fallback tokens of
   its bytes, in order, skipping bytes without one.
   */
  lemma CharSymbols(sp: Pieces, c: seq<Byte>)
    requires |sp.fallback| == 256 && c != [] && Utf8.CharWidth(c) == |c|
    ensures c in sp.v ==>
              exists id: nat :: id < |sp.v| && sp.v[id] == c && Init(sp, c) == [id]
                                && forall i :: id < i < |sp.v| ==> sp.v[i] != c
    ensures c !in sp.v ==>
              exists at: seq<nat> :: FallbackPlaces(sp, c, at) && |Init(sp, c)| == |at|
                                     && forall j :: 0 <= j < |at| ==> sp.fallback[c[at[j]]] == Some(Init(sp, c)[j])
  {
    assert c[..|c|] == c && c[|c|..] == [] && Init(sp, c) == CharInit(sp, c) + [];
    if c in sp.v {
      var i :| 0 <= i < |sp.v| && sp.v[i] == c;
      var id := LastId(sp.v, c).value;
      assert sp.v[id] == c && Init(sp, c) == [id];
    } else {
      var at := FallbackListed(sp, c);
    }
  }

  /** In raw mode a space has the symbols of the mark; every other character has its own in both modes. */
  lemma RawSymbols(sp: Pieces, c: seq<Byte>, raw: bool)
    requires |sp.fallback| == 256 && c != [] && Utf8.CharWidth(c) == |c|
    ensures raw && c == [SPACE] ==> Init(sp, Shown(c, raw)) == Init(sp, MARK)
    ensures !(raw && c == [SPACE]) ==> Init(sp, Shown(c, raw)) == Init(sp, c)
  {
    ReplacedChar(c);
    hide Init;
    if raw && c == [SPACE] {
      ReplacedOne(SPACE);
    }
  }

  /** Symbols and what raw text shows are put together character by character. */
  lemma SymbolsConcat(sp: Pieces, t: seq<Byte>, u: seq<Byte>, raw: bool)
    requires |sp.fallback| == 256 && Utf8.Valid(t)
    ensures Init(sp, Shown(t + u, raw)) == Init(sp, Shown(t, raw)) + Init(sp, Shown(u, raw))
  {
    hide Init, Utf8.Valid, Replaced;
    ShownConcat(t, u, raw);
    ReplacedValid(t);
    InitConcat(sp, Shown(t, raw), Shown(u, raw));
  }

  lemma {:induction false} FallbackSpells(sp: Pieces, c: seq<Byte>)
    requires PiecesFit(sp) && forall i :: 0 <= i < |c| ==> sp.fallback[c[i]].Some?
    ensures Bytes(sp.v, FallbackInit(sp, c)) == c && Solid(sp.v, FallbackInit(sp, c))
  {
    if c != [] {
      var first, rest := sp.fallback[c[0]].value, FallbackInit(sp, c[1..]);
      FallbackSpells(sp, c[1..]);
      BytesConcat(sp.v, [first], rest);
      BytesOne(sp.v, first);
      assert FallbackInit(sp, c) == [first] + rest;
    }
  }

  lemma CharSpells(sp: Pieces, c: seq<Byte>)
    requires PiecesFit(sp) && CharCovered(sp, c) && c != []
    ensures Bytes(sp.v, CharInit(sp, c)) == c && Solid(sp.v, CharInit(sp, c))
  {
    var id := LastId(sp.v, c);
    if id.Some? {
      BytesOne(sp.v, id.value);
    } else {
      FallbackSpells(sp, c);
    }
  }

  lemma FirstChar(sp: Pieces, t: seq<Byte>) returns (c: seq<Byte>, rest: seq<Byte>)
    requires |sp.fallback| == 256 && t != []
    ensures t == c + rest && c != [] && |rest| < |t|
    ensures Init(sp, t) == CharInit(sp, c) + Init(sp, rest)
    ensures Covered(sp, t) <==> CharCovered(sp, c) && Covered(sp, rest)
  {
    c, rest := t[..Step(t)], t[Step(t)..];
  }

  lemma SpellsConcat(v: Vocab, a: seq<Token>, b: seq<Token>, left: seq<Byte>, right: seq<Byte>)
    requires Bytes(v, a) == left && Bytes(v, b) == right && Solid(v, a) && Solid(v, b)
    ensures Bytes(v, a + b) == left + right && Solid(v, a + b)
  {
    hide Bytes;
    BytesConcat(v, a, b);
  }

  /** Covered text is spelled by its initial symbols. */
  lemma {:induction false} InitSpells(sp: Pieces, t: seq<Byte>)
    requires PiecesFit(sp) && Covered(sp, t)
    ensures Bytes(sp.v, Init(sp, t)) == t && Solid(sp.v, Init(sp, t))
    decreases |t|
  {
    if t != [] {
      hide PiecesFit, CharCovered, Bytes, CharInit, Solid, Init, Covered;
      var c, rest := FirstChar(sp, t);
      CharSpells(sp, c);
      InitSpells(sp, rest);
      SpellsConcat(sp.v, CharInit(sp, c), Init(sp, rest), c, rest);
    }
  }

  /** The whole-chunk merge of a text. */
  function Tokens(sp: Pieces, raw: bool, t: seq<Byte>): seq<Token>
    requires |sp.fallback| == 256
  {
    Greedy(sp.m, Init(sp, Shown(t, raw)))
  }

  // ------------------------------------------------------------------
  // Crossing pieces
  // ------------------------------------------------------------------

  /** The bytes around one interior mark of a piece. */
  type Crossing = (seq<Byte>, seq<Byte>)

  const MAX_CROSS_PIECES: nat := 32

  /** A mark at `i` after something that is not a mark. */
  predicate InteriorMark(piece: seq<Byte>, i: nat) {
    0 < i <= |piece| && MarkAt(piece, i) && !EndsInMark(piece[..i])
  }

  function CrossingFrom(piece: seq<Byte>, i: nat): (cs: seq<Crossing>)
    decreases |piece| - i
  {
    if i >= |piece| then []
    else (if InteriorMark(piece, i) then [(piece[..i], piece[i + 3..])] else []) + CrossingFrom(piece, i + 1)
  }

  /** What a unit boundary can cut, piece by piece; pieces that are not UTF-8 are skipped. */
  function AllCrossing(v: Vocab): seq<Crossing> {
    if v == [] then []
    else
      var last := v[|v| - 1];
      AllCrossing(v[..|v| - 1]) + if Utf8.Valid(last) then CrossingFrom(last, 0) else []
  }

  /** The guard's byte comparison can handle the crossing piece. */
  predicate Simple(c: Crossing) {
    Plain(c.0) && Plain(c.1)
  }

  predicate AllSimple(cs: seq<Crossing>) {
    forall c :: c in cs ==> Simple(c)
  }

  /** Units are usable under the guard. */
  predicate UnitsUsable(v: Vocab) {
    |AllCrossing(v)| <= MAX_CROSS_PIECES && AllSimple(AllCrossing(v))
  }

  lemma {:induction false} CrossingFound(piece: seq<Byte>, from: nat, i: nat)
    requires from <= i && InteriorMark(piece, i)
    ensures (piece[..i], piece[i + 3..]) in CrossingFrom(piece, from)
    decreases i - from
  {
    if from < i {
      CrossingFound(piece, from + 1, i);
    }
  }

  /** Every interior mark of a valid piece is listed. */
  lemma {:induction false} CrossingListed(v: Vocab, k: nat, i: nat)
    requires k < |v| && Utf8.Valid(v[k]) && InteriorMark(v[k], i)
    ensures (v[k][..i], v[k][i + 3..]) in AllCrossing(v)
  {
    if k == |v| - 1 {
      CrossingFound(v[k], 0, i);
    } else {
      CrossingListed(v[..|v| - 1], k, i);
    }
  }

  // ------------------------------------------------------------------
  // Where the scanner cuts
  // ------------------------------------------------------------------

  /** Punctuation the scanner may split before: . , " ) ; : ! ? */
  const SPLIT_BYTES: seq<Byte> := [0x2E, 0x2C, 0x22, 0x29, 0x3B, 0x3A, 0x21, 0x3F]

  /** No piece holds `x` immediately before the punctuation byte `b`. */
  ghost predicate SplitSafe(v: Vocab, x: Byte, b: Byte) {
    b in SPLIT_BYTES && !Occurs(v, x, b)
  }

  /** The last byte a raw byte stands for. */
  function LastShown(b: Byte, raw: bool): Byte {
    if raw && b == SPACE then 0x81 else b
  }

  /** Some crossing piece occurs across the mark of width `w` at `p`. */
  predicate Spans(cs: seq<Crossing>, t: seq<Byte>, p: nat, w: nat)
    requires p + w <= |t|
  {
    exists c :: c in cs && EndsWith(t[..p], c.0) && c.1 <= t[p + w..]
  }

  /** The scanner closes a unit before `p`. */
  ghost predicate CutAt(v: Vocab, everyMark: bool, raw: bool, t: seq<Byte>, p: nat)
    requires 0 < p < |t|
  {
    var w := MarkWidth(t, p, raw);
    if w.Some? then everyMark || (!MarkEndsAt(t, p, raw) && !Spans(AllCrossing(v), t, p, w.value))
    else SplitSafe(v, LastShown(t[p - 1], raw), t[p])
  }

  lemma {:induction false} CrossingIsInterior(piece: seq<Byte>, from: nat, c: Crossing)
    requires c in CrossingFrom(piece, from)
    ensures exists i: nat :: InteriorMark(piece, i) && c == (piece[..i], piece[i + 3..])
    decreases |piece| - from
  {
    var rest := CrossingFrom(piece, from + 1);
    if !(InteriorMark(piece, from) && c == (piece[..from], piece[from + 3..])) {
      assert c in rest;
      CrossingIsInterior(piece, from + 1, c);
    }
  }

  lemma {:induction false} CrossingHasPiece(v: Vocab, c: Crossing)
    requires c in AllCrossing(v)
    ensures exists k: nat, i: nat :: PieceCrosses(v, k, i, c)
  {
    var n := |v| - 1;
    if c in AllCrossing(v[..n]) {
      CrossingHasPiece(v[..n], c);
      var k: nat, i: nat :| PieceCrosses(v[..n], k, i, c);
      assert v[..n][k] == v[k];
      assert PieceCrosses(v, k, i, c);
    } else {
      assert Utf8.Valid(v[n]) && c in CrossingFrom(v[n], 0);
      CrossingIsInterior(v[n], 0, c);
      var i: nat :| InteriorMark(v[n], i) && c == (v[n][..i], v[n][i + 3..]);
      assert PieceCrosses(v, n, i, c);
    }
  }

  /** Piece `k` is text with a mark at `i` after something else, and `c` is what surrounds it. */
  ghost predicate PieceCrosses(v: Vocab, k: nat, i: nat, c: Crossing) {
    k < |v| && Utf8.Valid(v[k]) && InteriorMark(v[k], i) && c == (v[k][..i], v[k][i + 3..])
  }

  /** A piece with an interior mark has its bytes around the mark of width `w` at `p`. */
  ghost predicate PieceMatches(v: Vocab, t: seq<Byte>, p: nat, w: nat)
    requires p + w <= |t|
  {
    exists k: nat, i: nat ::
      && k < |v| && Utf8.Valid(v[k]) && 0 < i && i + 3 <= |v[k]| && v[k][i..i + 3] == MARK
      && !(i >= 3 && v[k][i - 3..i] == MARK)
      && i <= p && t[p - i..p] == v[k][..i] && v[k][i + 3..] <= t[p + w..]
  }

  lemma SpansIsMatch(v: Vocab, t: seq<Byte>, p: nat, w: nat)
    requires p + w <= |t|
    ensures Spans(AllCrossing(v), t, p, w) <==> PieceMatches(v, t, p, w)
  {
    hide AllCrossing, Utf8.Valid;
    if Spans(AllCrossing(v), t, p, w) {
      var c :| c in AllCrossing(v) && EndsWith(t[..p], c.0) && c.1 <= t[p + w..];
      CrossingHasPiece(v, c);
      var k: nat, i: nat :| PieceCrosses(v, k, i, c);
      InteriorIsMark(v[k], i);
      assert t[p - i..p] == t[..p][p - i..] == v[k][..i];
    }
    if PieceMatches(v, t, p, w) {
      var k: nat, i: nat :|
        && k < |v| && Utf8.Valid(v[k]) && 0 < i && i + 3 <= |v[k]| && v[k][i..i + 3] == MARK
        && !(i >= 3 && v[k][i - 3..i] == MARK)
        && i <= p && t[p - i..p] == v[k][..i] && v[k][i + 3..] <= t[p + w..];
      InteriorIsMark(v[k], i);
      CrossingListed(v, k, i);
      assert t[..p][p - i..] == t[p - i..p];
      assert EndsWith(t[..p], v[k][..i]);
    }
  }

  lemma InteriorIsMark(piece: seq<Byte>, i: nat)
    ensures InteriorMark(piece, i) <==>
            0 < i && i + 3 <= |piece| && piece[i..i + 3] == MARK && !(i >= 3 && piece[i - 3..i] == MARK)
  {
    if 0 < i && i + 3 <= |piece| {
      assert piece[i..i + 3] == [piece[i], piece[i + 1], piece[i + 2]];
      assert i >= 3 ==> piece[i - 3..i] == [piece[i - 3], piece[i - 2], piece[i - 1]];
    }
  }

  /**
   Where the scanner cuts, from the pieces alone: before a mark that continues no run of
   marks, unless a piece with an interior mark has its bytes around it; before one of eight
   punctuation bytes, if no piece holds it right after the byte in front.
   */
  lemma CutMeans(v: Vocab, raw: bool, t: seq<Byte>, p: nat)
    requires 0 < p < |t|
    ensures raw && t[p] == SPACE ==>
              (CutAt(v, false, raw, t, p) <==> !MarkBefore(t, p, raw) && !PieceMatches(v, t, p, 1))
    ensures !(raw && t[p] == SPACE) && MARK <= t[p..] ==>
              (CutAt(v, false, raw, t, p) <==> !MarkBefore(t, p, raw) && !PieceMatches(v, t, p, 3))
    ensures !(raw && t[p] == SPACE) && !(MARK <= t[p..]) ==>
              (CutAt(v, false, raw, t, p) <==>
               && t[p] in {0x2E, 0x2C, 0x22, 0x29, 0x3B, 0x3A, 0x21, 0x3F}
               && forall k, i :: 0 <= k < |v| && 0 < i < |v[k]| && v[k][i] == t[p] ==>
                    v[k][i - 1] != if raw && t[p - 1] == SPACE then 0x81 else t[p - 1])
    ensures !(raw && t[p] == SPACE) && !(MARK <= t[p..]) ==> (CutAt(v, true, raw, t, p) <==> CutAt(v, false, raw, t, p))
  {
    hide AllCrossing, Spans, PieceMatches;
    assert MarkAt(t, p) <==> MARK <= t[p..] by {
      if p + 3 <= |t| {
        assert t[p..][..3] == [t[p], t[p + 1], t[p + 2]];
      }
    }
    assert p >= 3 ==> t[p - 3..p] == [t[p - 3], t[p - 2], t[p - 1]];
    if raw && t[p] == SPACE {
      SpansIsMatch(v, t, p, 1);
    } else if MARK <= t[p..] {
      SpansIsMatch(v, t, p, 3);
    } else {
      OccursMeans(v, LastShown(t[p - 1], raw), t[p]);
    }
  }

  ghost predicate MarkBefore(t: seq<Byte>, p: nat, raw: bool)
    requires 0 < p <= |t|
  {
    (raw && t[p - 1] == SPACE) || (p >= 3 && t[p - 3..p] == MARK)
  }

  lemma OccursMeans(v: Vocab, x: Byte, b: Byte)
    ensures Occurs(v, x, b) <==> exists k, i :: 0 <= k < |v| && 0 < i < |v[k]| && v[k][i] == b && v[k][i - 1] == x
  {
    if Occurs(v, x, b) {
      var k :| 0 <= k < |v| && AdjacentIn(v[k], x, b);
      var j: nat :| j + 1 < |v[k]| && v[k][j] == x && v[k][j + 1] == b;
      var i := j + 1;
      assert v[k][i] == b && v[k][i - 1] == x;
    }
    if exists k, i :: 0 <= k < |v| && 0 < i < |v[k]| && v[k][i] == b && v[k][i - 1] == x {
      var k, i :| 0 <= k < |v| && 0 < i < |v[k]| && v[k][i] == b && v[k][i - 1] == x;
      var j: nat := i - 1;
      assert v[k][j] == x && v[k][j + 1] == b;
      assert AdjacentIn(v[k], x, b);
    }
  }

  /** A tokenizer that splits at every mark cuts before every mark. */
  lemma EveryMarkCuts(v: Vocab, raw: bool, t: seq<Byte>, p: nat)
    requires 0 < p < |t| && ((raw && t[p] == SPACE) || MARK <= t[p..])
    ensures CutAt(v, true, raw, t, p)
  {
    assert p + 3 <= |t| ==> t[p..][..3] == [t[p], t[p + 1], t[p + 2]];
  }

  /** What a first unit that carries the virtual leading space stands for. */
  function Prefixed(prefix: bool, t: seq<Byte>): seq<Byte> {
    if prefix then [SPACE] + t else t
  }

  /** Tokens of the units from `start` on, the next cut being looked for at `p`. */
  ghost function UnitsFrom(sp: Pieces, everyMark: bool, raw: bool, prefix: bool, t: seq<Byte>, start: nat,
                           p: nat): seq<Token>
    requires |sp.fallback| == 256 && start <= p <= |t|
    decreases |t| - p
  {
    var lead := prefix && start == 0;
    if p == |t| then (if start < p then Tokens(sp, raw, Prefixed(lead, t[start..])) else [])
    else if p > 0 && CutAt(sp.v, everyMark, raw, t, p) then
      Tokens(sp, raw, Prefixed(lead, t[start..p])) + UnitsFrom(sp, everyMark, raw, prefix, t, p, p + 1)
    else UnitsFrom(sp, everyMark, raw, prefix, t, start, p + 1)
  }

  /** The unit-by-unit encoding of a text. */
  ghost function Units(sp: Pieces, everyMark: bool, raw: bool, prefix: bool, t: seq<Byte>): seq<Token>
    requires |sp.fallback| == 256
  {
    UnitsFrom(sp, everyMark, raw, prefix, t, 0, 0)
  }

  // ------------------------------------------------------------------
  // Every cut is clean
  // ------------------------------------------------------------------

  /** No piece can straddle a split before safe punctuation. */
  lemma PunctuationCutIsClean(sp: Pieces, left: seq<Byte>, right: seq<Byte>)
    requires left != [] && right != [] && !Occurs(sp.v, left[|left| - 1], right[0])
    ensures CleanCut(sp.m, sp.v, left, right)
  {
    forall p | p in sp.m
      ensures !Straddles(TokenBytes(sp.v, sp.m[p].token), left, right)
    {
      StraddleIsAdjacent(TokenBytes(sp.v, sp.m[p].token), left, right);
    }
  }

  lemma StraddleIsAdjacent(token: seq<Byte>, left: seq<Byte>, right: seq<Byte>)
    requires left != [] && right != []
    ensures Straddles(token, left, right) ==> AdjacentIn(token, left[|left| - 1], right[0])
  {
    if Straddles(token, left, right) {
      var i: nat :| 0 < i < |token| && i <= |left| && |token| - i <= |right|
        && token[..i] == left[|left| - i..] && token[i..] == right[..|token| - i];
      assert token[..i][i - 1] == left[|left| - 1] && token[i..][0] == right[0];
      assert token[i - 1] == left[|left| - 1] && token[i - 1 + 1] == right[0];
    }
  }

  /** A valid piece that runs into a mark holds all of it. */
  lemma PieceHoldsMark(piece: seq<Byte>, right: seq<Byte>, i: nat)
    requires Utf8.Valid(piece) && i < |piece| && piece[i..] <= right && MarkAt(right, 0)
    ensures i + 3 <= |piece| && MarkAt(piece, i) && piece[i + 3..] <= right[3..]
  {
    var rest := piece[i..];
    assert forall k :: 0 <= k < |rest| ==> rest[k] == right[k] == piece[i + k];
    Utf8.LeadHasRoom(piece, i);
    assert piece[i + 3..] == rest[3..];
  }

  /** The text around a mark in valid text is valid. */
  lemma AroundMarkIsText(piece: seq<Byte>, i: nat)
    requires Utf8.Valid(piece) && MarkAt(piece, i)
    ensures Utf8.Valid(piece[..i]) && Utf8.Valid(piece[i + 3..])
  {
    Utf8.ValidSplit(piece, i);
    var rest := piece[i..];
    assert rest[0] == 0xE2 && Utf8.CharWidth(rest) == 3;
    assert rest[3..] == piece[i + 3..];
  }

  /** A mark that ends the shown text before `p` is one the scanner saw end there. */
  lemma ShownMarkWasSeen(t: seq<Byte>, p: nat, raw: bool, prefix: bool)
    requires 0 < p < |t| && (prefix ==> raw) && !Utf8.Continuation(t[p])
    ensures EndsInMark(Shown(Prefixed(prefix, t[..p]), raw)) ==> MarkEndsAt(t, p, raw)
  {
    var before := Prefixed(prefix, t[..p]);
    MarkEndsShown(before);
    assert before[|before| - 1] == t[p - 1];
    if EndsInMark(before) {
      assert MarkAt(t, p - 3) by {
        assert forall i :: 0 <= i < p ==> before[|before| - p + i] == t[i];
        assert |before| == p + 1 ==> before[0] == SPACE;
      }
    }
  }

  /** A text whose start is the mark at `p` shows a mark there. */
  lemma MarkShows(t: seq<Byte>, p: nat, raw: bool, w: nat)
    requires p < |t| && MarkWidth(t, p, raw) == Some(w)
    ensures var right := Shown(t[p..], raw);
            MarkAt(right, 0) && right[3..] == Shown(t[p + w..], raw)
  {
    var head, rest := t[p..p + w], t[p + w..];
    assert t[p..] == head + rest;
    ShownConcat(head, rest, raw);
    if t[p] == SPACE {
      assert head == [SPACE];
      ReplacedOne(SPACE);
    } else {
      ReplacedPlain(head);
    }
  }

  /** A mark cut is clean: a straddling piece would be a crossing piece the guard finds. */
  lemma MarkCutIsClean(sp: Pieces, raw: bool, prefix: bool, t: seq<Byte>, p: nat, w: nat)
    requires PiecesFit(sp) && AllSimple(AllCrossing(sp.v)) && (prefix ==> raw)
    requires 0 < p < |t| && MarkWidth(t, p, raw) == Some(w)
    requires !MarkEndsAt(t, p, raw) && !Spans(AllCrossing(sp.v), t, p, w)
    ensures CleanCut(sp.m, sp.v, Shown(Prefixed(prefix, t[..p]), raw), Shown(t[p..], raw))
  {
    hide Shown, MarkEndsAt, AllCrossing, Spans;
    var left, right := Shown(Prefixed(prefix, t[..p]), raw), Shown(t[p..], raw);
    forall q | q in sp.m
      ensures !Straddles(TokenBytes(sp.v, sp.m[q].token), left, right)
    {
      StraddlerIsGuarded(sp, raw, prefix, t, p, w, sp.m[q].token);
    }
  }

  /** A piece straddling a mark cut is listed, and its occurrence shows in the scanned text. */
  lemma StraddlerIsGuarded(sp: Pieces, raw: bool, prefix: bool, t: seq<Byte>, p: nat, w: nat, token: Token)
    requires PiecesFit(sp) && AllSimple(AllCrossing(sp.v)) && (prefix ==> raw)
    requires 0 < p < |t| && MarkWidth(t, p, raw) == Some(w) && !MarkEndsAt(t, p, raw)
    ensures Straddles(TokenBytes(sp.v, token), Shown(Prefixed(prefix, t[..p]), raw), Shown(t[p..], raw))
            ==> Spans(AllCrossing(sp.v), t, p, w)
  {
    hide Shown, MarkEndsAt, AllCrossing, Utf8.Valid, MarkAt, Simple, Straddles, PiecesFit, EndsInMark;
    var left, right := Shown(Prefixed(prefix, t[..p]), raw), Shown(t[p..], raw);
    if Straddles(TokenBytes(sp.v, token), left, right) {
      MarkShows(t, p, raw, w);
      ShownMarkWasSeen(t, p, raw, prefix);
      var c := StraddlerIsListed(sp, token, left, right);
      GuardSees(raw, prefix, t, p, w, c);
    }
  }

  lemma StraddlerIsListed(sp: Pieces, token: Token, left: seq<Byte>, right: seq<Byte>) returns (c: Crossing)
    requires PiecesFit(sp) && Straddles(TokenBytes(sp.v, token), left, right)
    requires MarkAt(right, 0) && !EndsInMark(left)
    ensures c in AllCrossing(sp.v) && Utf8.Valid(c.0) && Utf8.Valid(c.1)
    ensures EndsWith(left, c.0) && c.1 <= right[3..]
  {
    hide AllCrossing, Utf8.Valid, EndsInMark;
    var piece := TokenBytes(sp.v, token);
    var i: nat :| 0 < i < |piece| && i <= |left| && |piece| - i <= |right|
      && piece[..i] == left[|left| - i..] && piece[i..] == right[..|piece| - i];
    assert EndsWith(left, piece[..i]) && piece[i..] <= right;
    PieceHoldsMark(piece, right, i);
    AroundMarkIsText(piece, i);
    TailEndsInMark(left, piece[..i]);
    CrossingListed(sp.v, token, i);
    c := (piece[..i], piece[i + 3..]);
  }

  /** Around a cut, plain valid bytes occur in the shown text only where they occur in the scanned one. */
  lemma GuardSees(raw: bool, prefix: bool, t: seq<Byte>, p: nat, w: nat, c: Crossing)
    requires p + w <= |t| && (prefix ==> raw) && Simple(c) && Utf8.Valid(c.0) && Utf8.Valid(c.1)
    requires EndsWith(Shown(Prefixed(prefix, t[..p]), raw), c.0) && c.1 <= Shown(t[p + w..], raw)
    ensures EndsWith(t[..p], c.0) && c.1 <= t[p + w..]
  {
    ValidPlainLooks(c.0);
    ValidPlainLooks(c.1);
    if raw {
      var before := Prefixed(prefix, t[..p]);
      PlainEndOfShown(before, c.0);
      PlainStartOfShown(t[p + w..], c.1);
      if prefix {
        SpaceIsNoTail(t[..p], c.0);
      }
    }
  }

  lemma SpaceIsNoTail(t: seq<Byte>, s: seq<Byte>)
    requires EndsWith([SPACE] + t, s) && SPACE !in s
    ensures EndsWith(t, s)
  {
    var all := [SPACE] + t;
    assert all[0] == SPACE;
    assert |s| == |all| ==> s == all;
  }

  /** Every cut of the scanner is clean in the text it stands for. */
  lemma CutIsClean(sp: Pieces, raw: bool, prefix: bool, t: seq<Byte>, p: nat)
    requires PiecesFit(sp) && AllSimple(AllCrossing(sp.v)) && (prefix ==> raw)
    requires 0 < p < |t| && CutAt(sp.v, false, raw, t, p)
    ensures CleanCut(sp.m, sp.v, Shown(Prefixed(prefix, t[..p]), raw), Shown(t[p..], raw))
    ensures !Utf8.Continuation(t[p])
  {
    hide MarkEndsAt, AllCrossing, Spans, PiecesFit, Simple, CleanCut, Shown, AllSimple, Occurs;
    var w := MarkWidth(t, p, raw);
    if w.Some? {
      MarkCutIsClean(sp, raw, prefix, t, p, w.value);
    } else {
      NeighboursShown(t, p, raw, prefix);
      PunctuationCutIsClean(sp, Shown(Prefixed(prefix, t[..p]), raw), Shown(t[p..], raw));
    }
  }

  /** The bytes next to a cut, as shown. */
  lemma NeighboursShown(t: seq<Byte>, p: nat, raw: bool, prefix: bool)
    requires 0 < p < |t| && t[p] != SPACE && (prefix ==> raw)
    ensures var left, right := Shown(Prefixed(prefix, t[..p]), raw), Shown(t[p..], raw);
            left != [] && right != [] && left[|left| - 1] == LastShown(t[p - 1], raw) && right[0] == t[p]
  {
    var u, c := Unappend(Prefixed(prefix, t[..p]));
    assert c == t[p - 1];
    LastByteShown(u, c);
  }

  // ------------------------------------------------------------------
  // Units merge as the whole
  // ------------------------------------------------------------------

  /** Cutting covered valid text at a clean boundary splits its merge. */
  lemma CutSplitsTokens(sp: Pieces, raw: bool, a: seq<Byte>, b: seq<Byte>)
    requires PiecesFit(sp) && Utf8.Valid(a) && Covered(sp, Shown(a + b, raw))
    requires CleanCut(sp.m, sp.v, Shown(a, raw), Shown(b, raw))
    ensures Tokens(sp, raw, a + b) == Tokens(sp, raw, a) + Tokens(sp, raw, b)
    ensures Covered(sp, Shown(b, raw)) && Covered(sp, Shown(a, raw))
  {
    hide Covered, Init, CleanCut, Consistent, Solid, Bytes, Utf8.Valid;
    var left, right := Shown(a, raw), Shown(b, raw);
    ShownConcat(a, b, raw);
    ReplacedValid(a);
    InitConcat(sp, left, right);
    InitSpells(sp, left);
    InitSpells(sp, right);
    InitSpells(sp, left + right);
    SplitAtCleanCut(sp.m, sp.v, Init(sp, left), Init(sp, right));
  }

  /** The unit being scanned, with everything after it. */
  function Rest(prefix: bool, t: seq<Byte>, start: nat): seq<Byte>
    requires start <= |t|
  {
    Prefixed(prefix && start == 0, t[start..])
  }

  /** From any unit start, the units still to come are the merge of the rest. */
  lemma {:induction false} UnitsFromWhole(sp: Pieces, raw: bool, prefix: bool, t: seq<Byte>, start: nat, p: nat)
    requires PiecesFit(sp) && AllSimple(AllCrossing(sp.v)) && (prefix ==> raw)
    requires start <= p <= |t| && start < |t| && (start > 0 ==> start < p)
    requires Utf8.Valid(t[start..]) && Covered(sp, Shown(Rest(prefix, t, start), raw))
    ensures UnitsFrom(sp, false, raw, prefix, t, start, p) == Tokens(sp, raw, Rest(prefix, t, start))
    decreases |t| - p
  {
    hide PiecesFit, AllSimple, CutAt, Covered, Utf8.Valid, Tokens, Shown;
    if p < |t| {
      if p > 0 && CutAt(sp.v, false, raw, t, p) {
        UnitSplitsOff(sp, raw, prefix, t, start, p);
        UnitsFromWhole(sp, raw, prefix, t, p, p + 1);
      } else {
        UnitsFromWhole(sp, raw, prefix, t, start, p + 1);
      }
    }
  }

  /** A cut splits the unit before it off the rest. */
  lemma UnitSplitsOff(sp: Pieces, raw: bool, prefix: bool, t: seq<Byte>, start: nat, p: nat)
    requires PiecesFit(sp) && AllSimple(AllCrossing(sp.v)) && (prefix ==> raw)
    requires start < p < |t| && CutAt(sp.v, false, raw, t, p)
    requires Utf8.Valid(t[start..]) && Covered(sp, Shown(Rest(prefix, t, start), raw))
    ensures Tokens(sp, raw, Rest(prefix, t, start))
            == Tokens(sp, raw, Prefixed(prefix && start == 0, t[start..p])) + Tokens(sp, raw, Rest(prefix, t, p))
    ensures Utf8.Valid(t[p..]) && Covered(sp, Shown(Rest(prefix, t, p), raw))
  {
    hide PiecesFit, AllSimple, CutAt, Covered, Tokens, CleanCut, Shown, AllCrossing, Utf8.Valid;
    var lead := prefix && start == 0;
    var a, b := Prefixed(lead, t[start..p]), t[p..];
    CutIsClean(sp, raw, prefix, t, p);
    UnitEndsValid(t, start, p, lead);
    RestSplits(prefix, t, start, p);
    UnitCutIsClean(sp, raw, prefix, t, start, p);
    CutSplitsTokens(sp, raw, a, b);
  }

  lemma RestSplits(prefix: bool, t: seq<Byte>, start: nat, p: nat)
    requires start < p < |t|
    ensures Rest(prefix, t, start) == Prefixed(prefix && start == 0, t[start..p]) + t[p..]
    ensures Rest(prefix, t, p) == t[p..]
  {
    assert t[start..] == t[start..p] + t[p..];
  }

  lemma UnitEndsValid(t: seq<Byte>, start: nat, p: nat, lead: bool)
    requires start < p < |t| && Utf8.Valid(t[start..]) && !Utf8.Continuation(t[p])
    ensures Utf8.Valid(Prefixed(lead, t[start..p])) && Utf8.Valid(t[p..])
  {
    var u := t[start..];
    assert u[p - start] == t[p];
    Utf8.ValidSplit(u, p - start);
    assert u[..p - start] == t[start..p] && u[p - start..] == t[p..];
    assert Utf8.CharWidth([SPACE]) == 1 && [SPACE][1..] == [];
    Utf8.ValidConcat([SPACE], t[start..p]);
  }

  /** A cut that is clean in the whole text is clean for its unit. */
  lemma UnitCutIsClean(sp: Pieces, raw: bool, prefix: bool, t: seq<Byte>, start: nat, p: nat)
    requires start < p < |t|
    requires CleanCut(sp.m, sp.v, Shown(Prefixed(prefix, t[..p]), raw), Shown(t[p..], raw))
    ensures CleanCut(sp.m, sp.v, Shown(Prefixed(prefix && start == 0, t[start..p]), raw), Shown(t[p..], raw))
  {
    hide CleanCut, Shown;
    if start == 0 {
      assert t[0..p] == t[..p];
    } else {
      var before, unit := Prefixed(prefix, t[..start]), t[start..p];
      assert Prefixed(prefix, t[..p]) == before + unit;
      ShownConcat(before, unit, raw);
      var left, right := Shown(before, raw) + Shown(unit, raw), Shown(t[p..], raw);
      assert Shown(unit, raw) == left[|left| - |Shown(unit, raw)|..];
      CleanCutNarrows(sp.m, sp.v, left, right, Shown(unit, raw), right);
    }
  }

  /**
   Units cut at unguarded marks and safe punctuation encode to the tokens of one merge
   of the whole text, with or without the virtual leading space.
   */
  lemma UnitsMatchWhole(sp: Pieces, raw: bool, prefix: bool, t: seq<Byte>)
    requires PiecesFit(sp) && UnitsUsable(sp.v) && (prefix ==> raw && t != [])
    requires Utf8.Valid(t) && Covered(sp, Shown(Prefixed(prefix, t), raw))
    ensures Units(sp, false, raw, prefix, t) == Tokens(sp, raw, Prefixed(prefix, t))
  {
    hide PiecesFit, Covered, Utf8.Valid;
    assert t[0..] == t;
    if t == [] {
      NextIsBest(sp.m, [], 0);
      assert Shown(t, raw) == [];
    } else {
      UnitsFromWhole(sp, raw, prefix, t, 0, 0);
    }
  }
}

/**
 Why unit splitting needs text the vocabulary covers: a character with neither a piece
 nor fallback bytes vanishes, its neighbours become adjacent, and only the whole-text
 merge can join them. This happens for every character.
 */
module UncoveredText {
  import opened Prelude
  import opened Bpe
  import opened BpeCuts
  import opened MergeEngine
  import opened FromRanks
  import opened ForceSplit
  import opened Marks
  import opened SentencePiece
  import opened UnitScanner
  import Utf8

  predicate IsChar(c: seq<Byte>) {
    c != [] && Utf8.CharWidth(c) == |c|
  }

  lemma CharIsText(c: seq<Byte>)
    requires IsChar(c)
    ensures Utf8.Valid(c)
  {
    assert c[|c|..] == [];
  }

  // ------------------------------------------------------------------
  // Exactness when only some characters are known to be covered
  // ------------------------------------------------------------------

  /** Every character of the text that lies in `chars` is covered. */
  ghost predicate CoveredWithin(sp: Pieces, chars: iset<seq<Byte>>, t: seq<Byte>)
    requires |sp.fallback| == 256
    decreases |t|
  {
    t == [] || ((t[..Step(t)] in chars ==> CharCovered(sp, t[..Step(t)])) && CoveredWithin(sp, chars, t[Step(t)..]))
  }

  /** Units encode as one merge wherever the characters of `chars` are covered. */
  ghost predicate UnitsExactOver(chars: iset<seq<Byte>>) {
    forall sp: Pieces, raw: bool, prefix: bool, t: seq<Byte> ::
      PiecesFit(sp) && UnitsUsable(sp.v) && (prefix ==> raw && t != []) && Utf8.Valid(t)
      && CoveredWithin(sp, chars, Shown(Prefixed(prefix, t), raw))
      ==> Units(sp, false, raw, prefix, t) == Tokens(sp, raw, Prefixed(prefix, t))
  }

  lemma {:induction false} WithinAllIsCovered(sp: Pieces, chars: iset<seq<Byte>>, t: seq<Byte>)
    requires |sp.fallback| == 256 && Utf8.Valid(t) && CoveredWithin(sp, chars, t)
    requires forall c :: IsChar(c) ==> c in chars
    ensures Covered(sp, t)
    decreases |t|
  {
    if t != [] {
      hide CharCovered;
      Utf8.CharWidthLocal(t, []);
      assert IsChar(t[..Step(t)]);
      WithinAllIsCovered(sp, chars, t[Step(t)..]);
    }
  }

  // ------------------------------------------------------------------
  // A vocabulary for every lost character
  // ------------------------------------------------------------------

  /** What stands before the lost character: a letter other than it. */
  function Before(c: seq<Byte>): seq<Byte> {
    if c == [0x61] then [0x63] else [0x61]
  }

  /** What stands after it: the mark, or a letter when the mark itself is lost. */
  function After(c: seq<Byte>): seq<Byte> {
    if c == MARK then [0x62] else MARK
  }

  /** Two pieces and their merge; no fallback tokens. */
  function Tiny(c: seq<Byte>): Pieces {
    Pieces(map[(0, 1) := Merged(0, 2)], [Before(c), After(c), Before(c) + After(c)], seq(256, _ => None))
  }

  function Sample(c: seq<Byte>): seq<Byte> {
    Before(c) + c + After(c)
  }

  /** Where the scanner cuts the sample: before its mark. */
  function CutPlace(c: seq<Byte>): nat {
    if c == MARK then 1 else 1 + |c|
  }

  lemma PiecesAreChars(c: seq<Byte>)
    requires IsChar(c)
    ensures IsChar(Before(c)) && IsChar(After(c)) && Before(c) != c && After(c) != c
    ensures Utf8.Valid(Before(c)) && Utf8.Valid(c) && Utf8.Valid(After(c))
    ensures Utf8.Valid(Before(c) + After(c)) && !IsChar(Before(c) + After(c))
  {
    MarkIsText();
    CharIsText(Before(c));
    CharIsText(After(c));
    CharIsText(c);
    Utf8.ValidConcat(Before(c), After(c));
    Utf8.CharWidthLocal(Before(c), After(c));
  }

  lemma TinyPieces(c: seq<Byte>)
    requires IsChar(c)
    ensures PiecesFit(Tiny(c))
  {
    PiecesAreChars(c);
    hide Utf8.Valid;
    assert Tiny(c).v[2] == Before(c) + After(c);
  }

  /** A letter before the mark is the one crossing; letters alone cross nothing. */
  lemma JoinedCrossing(g: Byte)
    requires g < 0x80
    ensures CrossingFrom([g] + MARK, 0) == [([g], [])]
  {
    var last := [g] + MARK;
    assert last == [g, 0xE2, 0x96, 0x81] && last[..1] == [g] && last[4..] == [];
    assert CrossingFrom(last, 4) == [] && CrossingFrom(last, 3) == [] && CrossingFrom(last, 2) == [];
    assert CrossingFrom(last, 1) == [([g], [])];
  }

  lemma LettersCrossNothing(g: Byte, h: Byte)
    requires g < 0x80 && h < 0x80
    ensures CrossingFrom([g], 0) == [] && CrossingFrom([g] + [h], 0) == []
  {
    var two := [g] + [h];
    assert two == [g, h];
    assert CrossingFrom([g], 1) == [] && CrossingFrom(two, 2) == [] && CrossingFrom(two, 1) == [];
  }

  lemma MarkCrossesNothing()
    ensures CrossingFrom(MARK, 0) == []
  {
    assert CrossingFrom(MARK, 3) == [] && CrossingFrom(MARK, 2) == [] && CrossingFrom(MARK, 1) == [];
  }

  /** The listed crossings of three pieces of text, the first two of which cross nothing. */
  lemma ThreePieces(x: seq<Byte>, y: seq<Byte>, z: seq<Byte>)
    requires Utf8.Valid(x) && Utf8.Valid(y) && Utf8.Valid(z)
    requires CrossingFrom(x, 0) == [] && CrossingFrom(y, 0) == []
    ensures AllCrossing([x, y, z]) == CrossingFrom(z, 0)
  {
    hide CrossingFrom, Utf8.Valid, AllCrossing;
    var v := [x, y, z];
    NothingCrosses();
    assert v[..0] == [] && v[..3] == v;
    AllCrossingStep(v, 0);
    AllCrossingStep(v, 1);
    AllCrossingStep(v, 2);
  }

  lemma TinyCrossings(c: seq<Byte>)
    requires IsChar(c)
    ensures AllCrossing(Tiny(c).v) == if c == MARK then [] else [(Before(c), [])]
    ensures UnitsUsable(Tiny(c).v)
  {
    PiecesAreChars(c);
    hide CrossingFrom, Utf8.Valid, AllCrossing, UnitsUsable, MarkAt;
    var g := Before(c)[0];
    assert Before(c) == [g];
    JoinedCrossing(g);
    LettersCrossNothing(g, 0x62);
    LettersCrossNothing(0x62, 0x62);
    MarkCrossesNothing();
    ThreePieces(Before(c), After(c), Before(c) + After(c));
    OneLetterIsUsable(Tiny(c).v, g);
  }

  lemma OneLetterIsUsable(v: Vocab, g: Byte)
    requires g < 0x80 && g != SPACE && (AllCrossing(v) == [] || AllCrossing(v) == [([g], [])])
    ensures UnitsUsable(v)
  {
    hide AllCrossing, Simple;
    LetterIsSimple(g);
  }

  lemma LetterIsSimple(g: Byte)
    requires g < 0x80 && g != SPACE
    ensures Simple(([g], []))
  {
  }

  lemma TinyIds(c: seq<Byte>)
    requires IsChar(c)
    ensures var sp := Tiny(c);
            CharInit(sp, Before(c)) == [0] && CharInit(sp, After(c)) == [1] && CharInit(sp, c) == []
  {
    PiecesAreChars(c);
    hide Utf8.Valid, Utf8.CharWidth;
    var v := Tiny(c).v;
    assert v[0] == Before(c) && v[1] == After(c) && v[2] == Before(c) + After(c);
    assert LastId(v, c).None?;
    NoFallback(Tiny(c), c);
  }

  /** The symbols of three characters are theirs in a row. */
  lemma ThreeChars(sp: Pieces, x: seq<Byte>, c: seq<Byte>, y: seq<Byte>)
    requires |sp.fallback| == 256 && IsChar(x) && IsChar(c) && IsChar(y)
    requires Utf8.Valid(x) && Utf8.Valid(c) && Utf8.Valid(y)
    ensures Init(sp, x + c + y) == CharInit(sp, x) + CharInit(sp, c) + CharInit(sp, y)
    ensures Init(sp, c + y) == CharInit(sp, c) + CharInit(sp, y) && Init(sp, y) == CharInit(sp, y)
    ensures Utf8.Valid(x + c + y)
  {
    OneCharInit(sp, false, x);
    OneCharInit(sp, false, c);
    OneCharInit(sp, false, y);
    hide Init, CharInit, Utf8.Valid, Utf8.CharWidth;
    Utf8.ValidConcat(x, c);
    Utf8.ValidConcat(x + c, y);
    InitConcat(sp, x, c);
    InitConcat(sp, x + c, y);
    InitConcat(sp, c, y);
  }

  /** The lost character leaves no symbol, so its neighbours are adjacent. */
  lemma SampleSymbols(c: seq<Byte>)
    requires IsChar(c)
    ensures var sp := Tiny(c);
            Init(sp, Sample(c)) == [0, 1] && Init(sp, Sample(c)[CutPlace(c)..]) == [1] && Utf8.Valid(Sample(c))
  {
    hide Init, CharInit, Utf8.Valid, Utf8.CharWidth, IsChar, Before, After, CutPlace;
    PiecesAreChars(c);
    CharIsNotEmpty(c);
    TinyIds(c);
    ThreeChars(Tiny(c), Before(c), c, After(c));
    SampleTail(c);
  }

  lemma CharIsNotEmpty(c: seq<Byte>)
    requires IsChar(c)
    ensures c != []
  {
  }

  lemma SampleTail(c: seq<Byte>)
    requires c != []
    ensures 0 < CutPlace(c) < |Sample(c)|
    ensures Sample(c)[..CutPlace(c)] == if c == MARK then Before(c) else Before(c) + c
    ensures Sample(c)[CutPlace(c)..] == if c == MARK then c + After(c) else After(c)
  {
  }

  /** Neither the letter nor a mark ends the text before the cut. */
  lemma LostCharEnd(c: seq<Byte>)
    requires IsChar(c) && c != MARK
    ensures c[|c| - 1] != Before(c)[0] && !EndsInMark(Before(c) + c)
  {
    var t := Before(c) + c;
    assert forall k :: 0 <= k < |c| ==> t[1 + k] == c[k];
    assert |c| == 1 ==> c == [c[0]];
    assert |c| == 3 ==> c == [c[0], c[1], c[2]];
  }

  lemma MarkEndsPrefix(t: seq<Byte>, q: nat)
    requires q <= |t|
    ensures MarkEndsAt(t, q, false) ==> EndsInMark(t[..q])
  {
  }

  lemma SampleCut(c: seq<Byte>)
    requires IsChar(c)
    ensures 0 < CutPlace(c) < |Sample(c)| && CutAt(Tiny(c).v, false, false, Sample(c), CutPlace(c))
  {
    TinyCrossings(c);
    hide AllCrossing, Occurs, Utf8.Valid, UnitsUsable, CrossingFrom;
    var t, q := Sample(c), CutPlace(c);
    if c == MARK {
      assert t == [0x61, 0xE2, 0x96, 0x81, 0x62];
    } else {
      LostCharEnd(c);
      assert t[..q] == Before(c) + c && t[q..] == MARK;
      assert t[q] == t[q..][0] && t[q + 1] == t[q..][1] && t[q + 2] == t[q..][2];
      MarkEndsPrefix(t, q);
      assert t[..q][q - 1] == c[|c| - 1];
    }
  }

  lemma NoLaterCut(c: seq<Byte>, r: nat)
    requires IsChar(c) && CutPlace(c) < r < |Sample(c)|
    ensures !CutAt(Tiny(c).v, false, false, Sample(c), r)
  {
    hide AllCrossing, Occurs;
    var t, q := Sample(c), CutPlace(c);
    assert t[q..] == if c == MARK then [0xE2, 0x96, 0x81, 0x62] else MARK;
    assert t[r] == t[q..][r - q];
  }

  /** Once a cut is made, the units after it end the stream. */
  lemma {:induction false} LaterUnitsEnd(sp: Pieces, t: seq<Byte>, q: nat, start: nat, p: nat)
    requires |sp.fallback| == 256 && 0 < q < |t| && CutAt(sp.v, false, false, t, q) && start <= p <= q && start < q
    ensures var all := UnitsFrom(sp, false, false, false, t, start, p);
            var later := UnitsFrom(sp, false, false, false, t, q, q + 1);
            |later| <= |all| && all[|all| - |later|..] == later
    decreases q - p
  {
    hide CutAt, Tokens, UnitsFrom;
    UnitsUnfold(sp, false, false, false, t, start, p);
    if p < q {
      if p > 0 && CutAt(sp.v, false, false, t, p) {
        LaterUnitsEnd(sp, t, q, p, p + 1);
      } else {
        LaterUnitsEnd(sp, t, q, start, p + 1);
      }
    }
  }

  lemma {:induction false} LastUnit(c: seq<Byte>, r: nat)
    requires IsChar(c) && CutPlace(c) < r <= |Sample(c)|
    ensures UnitsFrom(Tiny(c), false, false, false, Sample(c), CutPlace(c), r)
            == Tokens(Tiny(c), false, Sample(c)[CutPlace(c)..])
    decreases |Sample(c)| - r
  {
    hide CutAt, Tokens, UnitsFrom, IsChar;
    if r < |Sample(c)| {
      NoLaterCut(c, r);
      UnitsUnfold(Tiny(c), false, false, false, Sample(c), CutPlace(c), r);
      LastUnit(c, r + 1);
    } else {
      UnitsEnd(Tiny(c), false, false, false, Sample(c), CutPlace(c));
    }
  }

  lemma WholeMerges(c: seq<Byte>)
    requires IsChar(c)
    ensures Tokens(Tiny(c), false, Sample(c)) == [2] && Tokens(Tiny(c), false, Sample(c)[CutPlace(c)..]) == [1]
  {
    SampleSymbols(c);
    hide Init, IsChar;
    var m := Tiny(c).m;
    ShortIsDone(m, [1]);
    ShortIsDone(m, [2]);
    NextIsBest(m, [0, 1], 0);
    assert Apply(m, [0, 1], 0) == [2];
  }

  /**
   Losing any one character breaks unit splitting: under a vocabulary that covers its
   neighbours but not it, the sample's units do not encode to the merge of the sample.
   */
  lemma LostCharacterBreaks(c: seq<Byte>)
    requires IsChar(c)
    ensures PiecesFit(Tiny(c)) && UnitsUsable(Tiny(c).v) && Utf8.Valid(Sample(c))
    ensures forall chars: iset<seq<Byte>> :: c !in chars ==> CoveredWithin(Tiny(c), chars, Sample(c))
    ensures Units(Tiny(c), false, false, false, Sample(c)) != Tokens(Tiny(c), false, Sample(c))
  {
    hide UnitsFrom, CutAt, Tokens, UnitsUsable, PiecesFit, Utf8.Valid;
    TinyPieces(c);
    TinyCrossings(c);
    SampleSymbols(c);
    SampleCut(c);
    WholeMerges(c);
    LastUnit(c, CutPlace(c) + 1);
    LaterUnitsEnd(Tiny(c), Sample(c), CutPlace(c), 0, 0);
    forall chars: iset<seq<Byte>> | c !in chars
      ensures CoveredWithin(Tiny(c), chars, Sample(c))
    {
      SampleIsCoveredWithin(c, chars);
    }
  }

  lemma FirstStep(x: seq<Byte>, rest: seq<Byte>)
    requires IsChar(x)
    ensures x + rest != [] && Step(x + rest) == |x| && (x + rest)[..|x|] == x && (x + rest)[|x|..] == rest
  {
    Utf8.CharWidthLocal(x, rest);
  }

  lemma SampleIsCoveredWithin(c: seq<Byte>, chars: iset<seq<Byte>>)
    requires IsChar(c) && c !in chars
    ensures CoveredWithin(Tiny(c), chars, Sample(c))
  {
    PiecesAreChars(c);
    var sp, x, y := Tiny(c), Before(c), After(c);
    assert sp.v[0] == x && sp.v[1] == y;
    hide Step, IsChar, Utf8.CharWidth, Utf8.Valid;
    FirstStep(y, []);
    FirstStep(c, y);
    FirstStep(x, c + y);
    assert y + [] == y && x + (c + y) == Sample(c);
    assert CharCovered(sp, x) && CharCovered(sp, y);
    assert CoveredWithin(sp, chars, []);
    assert CoveredWithin(sp, chars, y);
    assert CoveredWithin(sp, chars, c + y);
  }

  /**
   Units encode as one merge on all texts whose characters in `chars` are covered if and only
   if `chars` holds every character: no character's coverage can be dispensed with.
   */
  lemma CoverageIsNeeded(chars: iset<seq<Byte>>)
    ensures UnitsExactOver(chars) <==> forall c :: IsChar(c) ==> c in chars
  {
    hide CoveredWithin, IsChar, Utf8.Valid, UnitsUsable, Units, Tokens;
    if forall c :: IsChar(c) ==> c in chars {
      forall sp: Pieces, raw: bool, prefix: bool, t: seq<Byte> |
        PiecesFit(sp) && UnitsUsable(sp.v) && (prefix ==> raw && t != []) && Utf8.Valid(t)
        && CoveredWithin(sp, chars, Shown(Prefixed(prefix, t), raw))
        ensures Units(sp, false, raw, prefix, t) == Tokens(sp, raw, Prefixed(prefix, t))
      {
        FallbackFits(sp);
        UnitIsText(t, prefix);
        ReplacedValid(Prefixed(prefix, t));
        WithinAllIsCovered(sp, chars, Shown(Prefixed(prefix, t), raw));
        UnitsMatchWhole(sp, raw, prefix, t);
      }
    } else {
      var c :| IsChar(c) && c !in chars;
      LostCharacterBreaks(c);
      var sp, t := Tiny(c), Sample(c);
      assert Shown(Prefixed(false, t), false) == t;
      assert Units(sp, false, false, false, t) != Tokens(sp, false, Prefixed(false, t));
    }
  }
}

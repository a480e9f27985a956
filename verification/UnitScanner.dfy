/**
 The scanner that cuts text into units and encodes each through the unit cache, and
 the tables it is driven by.
 */
module UnitScanner {
  import opened Prelude
  import opened Bpe
  import opened BpeCuts
  import opened MergeScan
  import opened MergeEngine
  import opened FromRanks
  import opened ForceSplit
  import opened Marks
  import opened Packing
  import opened SentencePiece
  import Utf8

  // ------------------------------------------------------------------
  // Finding the crossing pieces
  // ------------------------------------------------------------------

  /** No mark starts in `a..b`, so nothing is listed there. */
  lemma {:induction false} CrossingSkips(piece: seq<Byte>, a: nat, b: nat)
    requires a <= b <= |piece| && forall i: nat :: a <= i < b ==> !MarkAt(piece, i)
    ensures CrossingFrom(piece, a) == CrossingFrom(piece, b)
    decreases b - a
  {
    if a < b {
      CrossingSkips(piece, a + 1, b);
    }
  }

  /** One character's step through a piece. */
  lemma CrossingStep(piece: seq<Byte>, pos: nat, w: nat)
    requires pos < |piece| && w == Utf8.CharWidth(piece[pos..]) && w > 0
    ensures piece[pos..pos + w] == MARK <==> MarkAt(piece, pos)
    ensures InteriorMark(piece, pos) ==>
              CrossingFrom(piece, pos) == [(piece[..pos], piece[pos + 3..])] + CrossingFrom(piece, pos + w)
    ensures !InteriorMark(piece, pos) ==> CrossingFrom(piece, pos) == CrossingFrom(piece, pos + w)
    ensures EndsInMark(piece[..pos + w]) <==> MarkAt(piece, pos)
  {
    hide EndsInMark, CrossingFrom, InteriorMark, MarkAt, Utf8.CharWidth;
    CrossingUnfolds(piece, pos);
    InsideIsNoMark(piece, pos, w);
    CrossingSkips(piece, pos + 1, pos + w);
    MarkEndsChar(piece, pos, w);
    MarkIsChar(piece, pos, w);
  }

  lemma CrossingUnfolds(piece: seq<Byte>, pos: nat)
    requires pos < |piece|
    ensures InteriorMark(piece, pos) ==> pos + 3 <= |piece|
    ensures InteriorMark(piece, pos) ==>
              CrossingFrom(piece, pos) == [(piece[..pos], piece[pos + 3..])] + CrossingFrom(piece, pos + 1)
    ensures !InteriorMark(piece, pos) ==> CrossingFrom(piece, pos) == CrossingFrom(piece, pos + 1)
  {
  }

  lemma InsideIsNoMark(piece: seq<Byte>, pos: nat, w: nat)
    requires pos < |piece| && w == Utf8.CharWidth(piece[pos..]) && w > 0
    ensures forall i: nat :: pos < i < pos + w ==> !MarkAt(piece, i)
  {
    hide Utf8.CharWidth;
    assert forall i :: pos <= i < pos + w ==> piece[i] == piece[pos..][i - pos];
  }

  lemma MarkIsChar(piece: seq<Byte>, pos: nat, w: nat)
    requires pos < |piece| && w == Utf8.CharWidth(piece[pos..]) && w > 0
    ensures piece[pos..pos + w] == MARK <==> MarkAt(piece, pos)
  {
    var rest := piece[pos..];
    assert piece[pos..pos + w] == rest[..w];
    assert MarkAt(piece, pos) <==> MarkAt(rest, 0);
  }

  /** A text that ends in a complete character ends in a mark exactly when that character is the mark. */
  lemma MarkEndsChar(piece: seq<Byte>, pos: nat, w: nat)
    requires pos < |piece| && w == Utf8.CharWidth(piece[pos..]) && w > 0
    ensures EndsInMark(piece[..pos + w]) <==> MarkAt(piece, pos)
  {
    var head := piece[..pos + w];
    assert forall i :: 0 <= i < w ==> piece[pos + i] == piece[pos..][i];
    assert w == 1 ==> piece[pos] < 0x80;
    assert EndsInMark(head) ==> head[|head| - 1] == 0x81 && head[|head| - 2] == 0x96 && head[|head| - 3] == 0xE2;
  }

  lemma {:induction false} AllCrossingGrows(v: Vocab, k: nat)
    requires k <= |v|
    ensures AllCrossing(v[..k]) <= AllCrossing(v)
    decreases |v| - k
  {
    if k == |v| {
      assert v[..k] == v;
    } else {
      AllCrossingGrows(v, k + 1);
      assert v[..k + 1][..k] == v[..k];
    }
  }

  lemma AllCrossingStep(v: Vocab, k: nat)
    requires k < |v|
    ensures AllCrossing(v[..k + 1]) == AllCrossing(v[..k]) + if Utf8.Valid(v[k]) then CrossingFrom(v[k], 0) else []
  {
    assert v[..k + 1][..k] == v[..k];
  }

  /** One piece's crossings; `None` when one of them is too complex or there are too many. */
  method CrossPiece(piece: seq<Byte>, before: seq<Crossing>) returns (r: Option<seq<Crossing>>)
    requires Utf8.Valid(piece) && |before| <= MAX_CROSS_PIECES && AllSimple(before)
    ensures r.Some? ==> r.value == before + CrossingFrom(piece, 0)
    ensures r.Some? ==> AllSimple(r.value) && |r.value| <= MAX_CROSS_PIECES
    ensures r.None? ==> var all := before + CrossingFrom(piece, 0); !AllSimple(all) || |all| > MAX_CROSS_PIECES
  {
    hide CrossingFrom, InteriorMark, Simple, MarkAt, EndsInMark, HasMark, Utf8.CharWidth;
    NoMarkEndsNothing(piece);
    var out, pos, prevIsMark := before, 0, true;
    assert piece[0..] == piece;
    while pos < |piece|
      invariant pos <= |piece| && Utf8.Valid(piece[pos..])
      invariant out + CrossingFrom(piece, pos) == before + CrossingFrom(piece, 0)
      invariant AllSimple(out) && |out| <= MAX_CROSS_PIECES
      invariant prevIsMark <==> pos == 0 || EndsInMark(piece[..pos])
      decreases |piece| - pos
    {
      var w := Utf8.CharWidth(piece[pos..]);
      assert w > 0;
      CrossingStep(piece, pos, w);
      InteriorIs(piece, pos);
      if piece[pos..pos + w] == MARK {
        if !prevIsMark {
          var c := (piece[..pos], piece[pos + 3..]);
          SimpleIs(c);
          ListedAfter(out, c, CrossingFrom(piece, pos + w));
          if HasMark(c.0) || HasMark(c.1) || SPACE in c.0 || SPACE in c.1 || |out| == MAX_CROSS_PIECES {
            return None;
          }
          out := out + [c];
        }
        prevIsMark := true;
      } else {
        prevIsMark := false;
      }
      assert piece[pos..][w..] == piece[pos + w..];
      pos := pos + w;
    }
    NothingListedAtEnd(piece, pos);
    r := Some(out);
  }

  lemma NoMarkEndsNothing(piece: seq<Byte>)
    ensures !EndsInMark(piece[..0])
  {
  }

  lemma NothingListedAtEnd(piece: seq<Byte>, pos: nat)
    requires pos == |piece|
    ensures CrossingFrom(piece, pos) == []
  {
  }

  lemma InteriorIs(piece: seq<Byte>, pos: nat)
    requires pos <= |piece|
    ensures InteriorMark(piece, pos) <==> pos > 0 && MarkAt(piece, pos) && !EndsInMark(piece[..pos])
  {
  }

  lemma SimpleIs(c: Crossing)
    ensures Simple(c) <==> !HasMark(c.0) && !HasMark(c.1) && SPACE !in c.0 && SPACE !in c.1
  {
  }

  lemma ListedAfter(out: seq<Crossing>, c: Crossing, rest: seq<Crossing>)
    ensures out + ([c] + rest) == out + [c] + rest && c in out + [c] + rest
    ensures |out + [c] + rest| > |out|
  {
    assert (out + [c] + rest)[|out|] == c;
  }

  /** The crossing pieces, when the scanner's guard can handle all of them. */
  method UnitCrossingPieces(v: Vocab) returns (r: Option<seq<Crossing>>)
    ensures r.Some? <==> UnitsUsable(v)
    ensures r.Some? ==> r.value == AllCrossing(v)
  {
    hide AllCrossing, Simple, Utf8.Valid;
    var out: seq<Crossing> := [];
    NothingCrosses();
    assert v[..0] == [];
    for k := 0 to |v|
      invariant out == AllCrossing(v[..k]) && AllSimple(out) && |out| <= MAX_CROSS_PIECES
    {
      AllCrossingStep(v, k);
      if Utf8.Valid(v[k]) {
        var more := CrossPiece(v[k], out);
        if more.None? {
          AllCrossingGrows(v, k + 1);
          return None;
        }
        out := more.value;
      }
    }
    assert v[..|v|] == v;
    r := Some(out);
  }

  lemma NothingCrosses()
    ensures AllCrossing([]) == []
  {
  }

  // ------------------------------------------------------------------
  // The scanner's tables
  // ------------------------------------------------------------------

  datatype WordSplit = EveryMark | SpaceRuns | WholeChunk

  /** `crossPrev`: last bytes of crossing starts; `splitSafe[b][x]`: `b` may be split off after `x`. */
  datatype Speed = Speed(
    split: WordSplit, cross: seq<Crossing>, crossPrev: seq<bool>,
    splitBytes: seq<Byte>, splitSafe: seq<seq<bool>>)

  const NUM_SPLIT_BYTES: nat := 8

  ghost predicate CrossFits(v: Vocab, speed: Speed) {
    && |speed.crossPrev| == 256
    && (speed.split.SpaceRuns? ==> speed.cross == AllCrossing(v) && UnitsUsable(v))
    && (speed.split.EveryMark? ==> speed.cross == [])
    && (speed.split.WholeChunk? ==> !UnitsUsable(v))
    && forall c :: c in speed.cross ==> c.0 != [] && speed.crossPrev[c.0[|c.0| - 1]]
  }

  ghost predicate SplitsFit(v: Vocab, splitBytes: seq<Byte>, splitSafe: seq<seq<bool>>) {
    && |splitBytes| == NUM_SPLIT_BYTES && |splitSafe| == 256
    && (forall b: Byte :: |splitSafe[b]| == 256)
    && (forall b: Byte, x: Byte :: splitSafe[b][x] <==> SplitSafe(v, x, b))
    && forall b: Byte, x: Byte :: splitSafe[b][x] ==> b in splitBytes
  }

  ghost predicate SpeedFits(v: Vocab, speed: Speed) {
    CrossFits(v, speed) && (!speed.split.WholeChunk? ==> SplitsFit(v, speed.splitBytes, speed.splitSafe))
  }

  lemma {:induction false} CrossingNotEmpty(piece: seq<Byte>, i: nat)
    requires Utf8.Valid(piece)
    ensures forall c :: c in CrossingFrom(piece, i) ==> c.0 != [] && Utf8.Valid(c.0) && Utf8.Valid(c.1)
    decreases |piece| - i
  {
    if i < |piece| {
      CrossingNotEmpty(piece, i + 1);
      if InteriorMark(piece, i) {
        Utf8.ValidSplit(piece, i);
        Utf8.LeadHasRoom(piece, i);
        var rest := piece[i..];
        assert rest[0] == 0xE2 && Utf8.CharWidth(rest) == 3;
        assert rest[3..] == piece[i + 3..];
      }
    }
  }

  /** Every listed crossing has a nonempty start, and both its parts are valid text. */
  lemma {:induction false} CrossingsAreText(v: Vocab)
    ensures forall c :: c in AllCrossing(v) ==> c.0 != [] && Utf8.Valid(c.0) && Utf8.Valid(c.1)
  {
    if v != [] {
      CrossingsAreText(v[..|v| - 1]);
      if Utf8.Valid(v[|v| - 1]) {
        CrossingNotEmpty(v[|v| - 1], 0);
      }
    }
  }

  /** The bytes that end some crossing start. */
  method CrossPrevious(cross: seq<Crossing>) returns (prev: seq<bool>)
    requires forall c :: c in cross ==> c.0 != []
    ensures |prev| == 256 && forall c :: c in cross ==> prev[c.0[|c.0| - 1]]
  {
    prev := seq(256, _ => false);
    for i := 0 to |cross|
      invariant |prev| == 256 && forall k :: 0 <= k < i ==> prev[cross[k].0[|cross[k].0| - 1]]
    {
      var pre := cross[i].0;
      prev := prev[pre[|pre| - 1] := true];
    }
  }

  ghost predicate SplitsSoFar(v: Vocab, splitBytes: seq<Byte>, splitSafe: seq<seq<bool>>, n: nat)
    requires n <= NUM_SPLIT_BYTES
  {
    && |splitBytes| == NUM_SPLIT_BYTES && |splitSafe| == 256
    && (forall b: Byte :: |splitSafe[b]| == 256)
    && (forall b: Byte, x: Byte :: splitSafe[b][x] <==> b in SPLIT_BYTES[..n] && !Occurs(v, x, b))
    && forall b: Byte, x: Byte :: splitSafe[b][x] ==> b in splitBytes[..n]
  }

  lemma SplitsDone(v: Vocab, splitBytes: seq<Byte>, splitSafe: seq<seq<bool>>)
    requires SplitsSoFar(v, splitBytes, splitSafe, NUM_SPLIT_BYTES)
    ensures SplitsFit(v, splitBytes, splitSafe)
  {
    hide Occurs;
    assert SPLIT_BYTES[..NUM_SPLIT_BYTES] == SPLIT_BYTES;
    assert splitBytes[..NUM_SPLIT_BYTES] == splitBytes;
  }

  /** The bytes after which splitting before `b` is safe. */
  method SafeBefore(v: Vocab, adjacent: Bigrams, b: Byte) returns (safe: seq<bool>)
    requires adjacent.Holds(v)
    ensures |safe| == 256 && forall x: Byte :: safe[x] <==> !Occurs(v, x, b)
  {
    hide Occurs;
    safe := [];
    for x := 0 to 256
      invariant |safe| == x && forall y: Byte :: y < x ==> (safe[y] <==> !Occurs(v, y, b))
    {
      safe := safe + [!adjacent.MayJoin(x, b)];
    }
  }

  lemma SplitsNext(v: Vocab, splitBytes: seq<Byte>, splitSafe: seq<seq<bool>>, n: nat, safe: seq<bool>)
    requires n < NUM_SPLIT_BYTES && SplitsSoFar(v, splitBytes, splitSafe, n)
    requires |safe| == 256 && forall x: Byte :: safe[x] <==> !Occurs(v, x, SPLIT_BYTES[n])
    ensures true in safe ==>
              SplitsSoFar(v, splitBytes[n := SPLIT_BYTES[n]], splitSafe[SPLIT_BYTES[n] := safe], n + 1)
    ensures true !in safe ==> SplitsSoFar(v, splitBytes, splitSafe, n + 1)
  {
    hide Occurs;
    var b := SPLIT_BYTES[n];
    assert SPLIT_BYTES[..n + 1] == SPLIT_BYTES[..n] + [b];
    assert b !in SPLIT_BYTES[..n];
    assert splitBytes[..n + 1] == splitBytes[..n] + [splitBytes[n]];
    var bytes' := splitBytes[n := b];
    assert bytes'[..n + 1] == splitBytes[..n] + [b];
    assert true !in safe ==> forall x: Byte :: !safe[x];
  }

  lemma NoSplitsYet(v: Vocab, splitBytes: seq<Byte>, splitSafe: seq<seq<bool>>)
    requires |splitBytes| == NUM_SPLIT_BYTES && splitSafe == seq(256, _ => seq(256, _ => false))
    ensures SplitsSoFar(v, splitBytes, splitSafe, 0)
  {
  }

  /** The split punctuation and when it is safe. */
  method SplitTables(v: Vocab) returns (splitBytes: seq<Byte>, splitSafe: seq<seq<bool>>)
    ensures SplitsFit(v, splitBytes, splitSafe)
  {
    hide Occurs, SplitsSoFar, SplitsFit, Bigrams.Holds;
    var adjacent := new Bigrams(v);
    splitBytes, splitSafe := seq(NUM_SPLIT_BYTES, _ => 0), seq(256, _ => seq(256, _ => false));
    NoSplitsYet(v, splitBytes, splitSafe);
    for slot := 0 to NUM_SPLIT_BYTES
      invariant SplitsSoFar(v, splitBytes, splitSafe, slot) && adjacent.Holds(v)
      invariant |splitBytes| == NUM_SPLIT_BYTES && |splitSafe| == 256
    {
      var b := SPLIT_BYTES[slot];
      var safe := SafeBefore(v, adjacent, b);
      SplitsNext(v, splitBytes, splitSafe, slot, safe);
      if true in safe {
        splitBytes, splitSafe := splitBytes[slot := b], splitSafe[b := safe];
      }
    }
    SplitsDone(v, splitBytes, splitSafe);
  }

  /** Choose how text is split into units and fill the scanner's tables. */
  method FinalizeSpeedPaths(v: Vocab, metaspaceSplit: bool) returns (speed: Speed)
    ensures SpeedFits(v, speed) && (speed.split.EveryMark? <==> metaspaceSplit)
    ensures !metaspaceSplit ==> (speed.split.SpaceRuns? <==> UnitsUsable(v))
  {
    hide AllCrossing, SplitsFit, UnitsUsable;
    var cross: seq<Crossing>, split := [], EveryMark;
    if !metaspaceSplit {
      var found := UnitCrossingPieces(v);
      CrossingsAreText(v);
      cross, split := if found.Some? then found.value else [], if found.Some? then SpaceRuns else WholeChunk;
    }
    var prev := CrossPrevious(cross);
    var splitBytes, splitSafe := SplitTables(v);
    speed := Speed(split, cross, prev, splitBytes, splitSafe);
  }

  // ------------------------------------------------------------------
  // Initial symbols, one character at a time
  // ------------------------------------------------------------------

  /** One character's symbols as the text shows them. */
  lemma InitShownStep(sp: Pieces, raw: bool, t: seq<Byte>)
    requires |sp.fallback| == 256 && t != [] && Utf8.Valid(t)
    ensures var w := Utf8.CharWidth(t);
            0 < w <= |t| && Utf8.Valid(t[w..]) &&
            Init(sp, Shown(t, raw)) == CharInit(sp, Shown(t[..w], raw)) + Init(sp, Shown(t[w..], raw))
    ensures raw && t[0] == SPACE ==> Shown(t[..Utf8.CharWidth(t)], raw) == MARK
    ensures !(raw && t[0] == SPACE) ==> Shown(t[..Utf8.CharWidth(t)], raw) == t[..Utf8.CharWidth(t)]
  {
    var w := Utf8.CharWidth(t);
    var c, rest := t[..w], t[w..];
    assert t == c + rest;
    ShownConcat(c, rest, raw);
    Utf8.CharWidthLocal(t, []);
    ReplacedChar(c);
    hide Init, Replaced, Utf8.CharWidth;
    OneCharInit(sp, raw, c);
    InitConcat(sp, Shown(c, raw), Shown(rest, raw));
  }

  lemma OneCharInit(sp: Pieces, raw: bool, c: seq<Byte>)
    requires |sp.fallback| == 256 && c != [] && Utf8.CharWidth(c) == |c|
    ensures Init(sp, Shown(c, raw)) == CharInit(sp, Shown(c, raw))
  {
    ReplacedChar(c);
    var shown := Shown(c, raw);
    assert Utf8.CharWidth(shown) == |shown|;
    assert shown[..|shown|] == shown && shown[|shown|..] == [];
  }

  /** The initial symbols of a text, spaces standing for the mark in raw mode. */
  method InitSymbols(sp: Pieces, text: seq<Byte>, raw: bool) returns (symbols: seq<Token>)
    requires |sp.fallback| == 256 && Utf8.Valid(text)
    ensures symbols == Init(sp, Shown(text, raw))
  {
    hide Init, CharInit, Shown, Utf8.Valid, Utf8.CharWidth;
    var spaceInit := CharInit(sp, MARK);
    symbols := [];
    var pos := 0;
    assert text[0..] == text;
    while pos < |text|
      invariant pos <= |text| && Utf8.Valid(text[pos..])
      invariant symbols + Init(sp, Shown(text[pos..], raw)) == Init(sp, Shown(text, raw))
      decreases |text| - pos
    {
      var rest := text[pos..];
      InitShownStep(sp, raw, rest);
      var w := Utf8.CharWidth(rest);
      var c := if raw && rest[0] == SPACE then spaceInit else CharInit(sp, rest[..w]);
      Reassociate(symbols, c, Init(sp, Shown(rest[w..], raw)));
      assert rest[w..] == text[pos + w..];
      symbols, pos := symbols + c, pos + w;
    }
    EmptyInit(sp, raw);
    assert text[pos..] == [];
  }

  lemma EmptyInit(sp: Pieces, raw: bool)
    requires |sp.fallback| == 256
    ensures Init(sp, Shown([], raw)) == []
  {
  }

  // ------------------------------------------------------------------
  // The unit cache
  // ------------------------------------------------------------------

  /** Where an encoding lies in the arena. */
  type Slice = (nat, nat)

  predicate Names(s: Slice, arena: seq<Token>, ids: seq<Token>) {
    s.0 + s.1 <= |arena| && arena[s.0..s.0 + s.1] == ids
  }

  lemma NamesAfterGrow(s: Slice, arena: seq<Token>, more: seq<Token>, ids: seq<Token>)
    requires Names(s, arena, ids)
    ensures Names(s, arena + more, ids)
  {
    assert (arena + more)[s.0..s.0 + s.1] == arena[s.0..s.0 + s.1];
  }

  lemma NamesAppended(arena: seq<Token>, ids: seq<Token>)
    ensures Names((|arena|, |ids|), arena + ids, ids)
  {
  }

  ghost predicate ShortUnitsExact(sp: Pieces, raw: bool, short: map<nat, Slice>, arena: seq<Token>)
    requires |sp.fallback| == 256
  {
    forall t: seq<Byte> :: IsShort(t) && PackBytes(t) in short ==> Names(short[PackBytes(t)], arena, Tokens(sp, raw, t))
  }

  ghost predicate LongUnitsExact(sp: Pieces, raw: bool, long: map<seq<Byte>, Slice>, arena: seq<Token>)
    requires |sp.fallback| == 256
  {
    forall t :: t in long ==> Names(long[t], arena, Tokens(sp, raw, t))
  }

  /** A front entry repeats an entry of the short map; key 0 is empty. */
  ghost predicate FrontFits(frontKeys: seq<nat>, frontVals: seq<Slice>, short: map<nat, Slice>) {
    && |frontKeys| == FRONT_SIZE && |frontVals| == FRONT_SIZE
    && forall i :: 0 <= i < FRONT_SIZE && frontKeys[i] != 0 ==>
         frontKeys[i] in short && frontVals[i] == short[frontKeys[i]]
  }

  const FRONT_SIZE: nat := 0x10_0000

  lemma ShortUnitStored(sp: Pieces, raw: bool, short: map<nat, Slice>, arena: seq<Token>, t: seq<Byte>, ids: seq<Token>)
    requires |sp.fallback| == 256 && ShortUnitsExact(sp, raw, short, arena) && IsShort(t) && ids == Tokens(sp, raw, t)
    ensures ShortUnitsExact(sp, raw, short[PackBytes(t) := (|arena|, |ids|)], arena + ids)
  {
    hide Tokens, PackBytes, Names;
    var after := short[PackBytes(t) := (|arena|, |ids|)];
    forall u: seq<Byte> | IsShort(u) && PackBytes(u) in after
      ensures Names(after[PackBytes(u)], arena + ids, Tokens(sp, raw, u))
    {
      PackBytesInjective(t, u);
      if u == t {
        NamesAppended(arena, ids);
      } else {
        NamesAfterGrow(short[PackBytes(u)], arena, ids, Tokens(sp, raw, u));
      }
    }
  }

  lemma LongUnitStored(sp: Pieces, raw: bool, long: map<seq<Byte>, Slice>, arena: seq<Token>, t: seq<Byte>,
                       ids: seq<Token>)
    requires |sp.fallback| == 256 && LongUnitsExact(sp, raw, long, arena) && ids == Tokens(sp, raw, t)
    ensures LongUnitsExact(sp, raw, long[t := (|arena|, |ids|)], arena + ids)
  {
    hide Tokens, Names;
    NamesAppended(arena, ids);
    forall u | u in long
      ensures Names(long[u], arena + ids, Tokens(sp, raw, u))
    {
      NamesAfterGrow(long[u], arena, ids, Tokens(sp, raw, u));
    }
  }

  lemma ShortUnitsAfterGrow(sp: Pieces, raw: bool, short: map<nat, Slice>, arena: seq<Token>, ids: seq<Token>)
    requires |sp.fallback| == 256 && ShortUnitsExact(sp, raw, short, arena)
    ensures ShortUnitsExact(sp, raw, short, arena + ids)
  {
    hide Tokens, Names, PackBytes;
    forall u: seq<Byte> | IsShort(u) && PackBytes(u) in short
      ensures Names(short[PackBytes(u)], arena + ids, Tokens(sp, raw, u))
    {
      NamesAfterGrow(short[PackBytes(u)], arena, ids, Tokens(sp, raw, u));
    }
  }

  lemma LongUnitsAfterGrow(sp: Pieces, raw: bool, long: map<seq<Byte>, Slice>, arena: seq<Token>, ids: seq<Token>)
    requires |sp.fallback| == 256 && LongUnitsExact(sp, raw, long, arena)
    ensures LongUnitsExact(sp, raw, long, arena + ids)
  {
    hide Tokens, Names;
    forall u | u in long
      ensures Names(long[u], arena + ids, Tokens(sp, raw, u))
    {
      NamesAfterGrow(long[u], arena, ids, Tokens(sp, raw, u));
    }
  }

  /** The vocabulary whose two pieces are the space and the mark. */
  function SpaceAndMark(): Pieces {
    Pieces(map[], [[SPACE], MARK], seq(256, _ => None))
  }

  /** A space is always a character of its own. */
  lemma SpaceStandsAlone(t: seq<Byte>)
    requires t != []
    ensures SPACE in t[..Step(t)] <==> t[..Step(t)] == [SPACE]
    ensures SPACE in t <==> SPACE in t[..Step(t)] || SPACE in t[Step(t)..]
  {
    var c, rest := t[..Step(t)], t[Step(t)..];
    assert t == c + rest;
    assert forall i :: 1 <= i < |c| ==> Utf8.Continuation(c[i]);
    assert |c| > 1 ==> c[0] >= 0x80;
    assert |c| == 1 ==> c == [c[0]];
  }

  lemma SpaceId(c: seq<Byte>)
    ensures 0 in CharInit(SpaceAndMark(), c) <==> c == [SPACE]
  {
    var v := SpaceAndMark().v;
    assert v[0] == [SPACE] && v[1] == MARK;
    NoFallback(SpaceAndMark(), c);
  }

  lemma {:induction false} NoFallback(sp: Pieces, c: seq<Byte>)
    requires |sp.fallback| == 256 && forall b: Byte :: sp.fallback[b].None?
    ensures FallbackInit(sp, c) == []
  {
    if c != [] {
      NoFallback(sp, c[1..]);
    }
  }

  /** Under that vocabulary the symbols hold the space's id exactly when the text holds a space. */
  lemma {:induction false} SpaceLeavesItsId(t: seq<Byte>)
    ensures 0 in Init(SpaceAndMark(), t) <==> SPACE in t
    decreases |t|
  {
    if t != [] {
      hide CharInit;
      SpaceStandsAlone(t);
      SpaceId(t[..Step(t)]);
      SpaceLeavesItsId(t[Step(t)..]);
    }
  }

  lemma {:induction false} ReplacedHoldsNoSpace(t: seq<Byte>)
    ensures SPACE !in Replaced(t)
  {
    if t != [] {
      ReplacedHoldsNoSpace(t[1..]);
    }
  }

  /** The two-piece vocabulary is a usable one. */
  lemma SpaceAndMarkFits()
    ensures PiecesFit(SpaceAndMark()) && UnitsUsable(SpaceAndMark().v)
  {
    var v := SpaceAndMark().v;
    MarkIsText();
    assert v[..1] == [[SPACE]];
    assert CrossingFrom(MARK, 3) == [] && CrossingFrom(MARK, 2) == [] && CrossingFrom(MARK, 1) == [];
    assert CrossingFrom([SPACE], 1) == [];
    assert AllCrossing([[SPACE]]) == [];
    assert AllCrossing(v) == [];
  }

  /**
   A unit's bytes encode alike in raw and normalized mode under every vocabulary exactly
   when they hold no space: only such cache entries may serve both modes.
   */
  lemma ModesAgree(t: seq<Byte>)
    ensures (forall sp: Pieces | |sp.fallback| == 256 :: Tokens(sp, true, t) == Tokens(sp, false, t)) <==> SPACE !in t
    ensures (forall sp: Pieces | PiecesFit(sp) && UnitsUsable(sp.v) :: Tokens(sp, true, t) == Tokens(sp, false, t))
            <==> SPACE !in t
  {
    hide PiecesFit, UnitsUsable;
    if SPACE in t {
      var sp := SpaceAndMark();
      SpaceAndMarkFits();
      hide Init, Replaced, Greedy;
      SpaceLeavesItsId(t);
      SpaceLeavesItsId(Replaced(t));
      ReplacedHoldsNoSpace(t);
      NothingMerges(Init(sp, t));
      NothingMerges(Init(sp, Replaced(t)));
      assert Tokens(sp, true, t) != Tokens(sp, false, t);
    } else {
      ReplacedPlain(t);
    }
  }

  /** Machine limits: explicit ranks below the reserved one. */
  ghost predicate Ranked(sp: Pieces) {
    PiecesFit(sp) && RanksFit(sp.m) && NoMaxRank(sp.m)
  }

  lemma {:induction false} InitSize(sp: Pieces, t: seq<Byte>)
    requires |sp.fallback| == 256
    ensures |Init(sp, t)| <= |t|
    decreases |t|
  {
    if t != [] {
      FallbackSize(sp, t[..Step(t)]);
      InitSize(sp, t[Step(t)..]);
    }
  }

  lemma {:induction false} FallbackSize(sp: Pieces, c: seq<Byte>)
    requires |sp.fallback| == 256
    ensures |FallbackInit(sp, c)| <= |c|
  {
    if c != [] {
      FallbackSize(sp, c[1..]);
    }
  }

  lemma {:induction false} ReplacedSize(t: seq<Byte>)
    ensures |Replaced(t)| <= 3 * |t|
  {
    if t != [] {
      ReplacedSize(t[1..]);
    }
  }

  /** A unit's encoding has at most three tokens a byte. */
  lemma TokensSize(sp: Pieces, raw: bool, t: seq<Byte>)
    requires |sp.fallback| == 256
    ensures |Init(sp, Shown(t, raw))| <= 3 * |t| && |Tokens(sp, raw, t)| <= 3 * |t|
  {
    ReplacedSize(t);
    InitSize(sp, Shown(t, raw));
    GreedySize(sp.m, Init(sp, Shown(t, raw)));
  }

  /** Merge a text from its characters, spaces standing for the mark in raw mode. */
  method MergeText(sp: Pieces, t: seq<Byte>, raw: bool) returns (ids: seq<Token>)
    requires Ranked(sp) && Utf8.Valid(t) && 3 * |t| <= U32_MAX
    ensures ids == Tokens(sp, raw, t)
  {
    hide Init, PiecesFit, RanksFit, NoMaxRank, Utf8.Valid, Shown, RouteMerges;
    FallbackFits(sp);
    var symbols := InitSymbols(sp, t, raw);
    TokensSize(sp, raw, t);
    var a := new Token[|symbols|](i requires 0 <= i < |symbols| => symbols[i]);
    assert a[..] == symbols;
    var len := MergeRanked(sp.m, a);
    RouteIsRule(sp.m, |symbols|);
    ids := a[..len];
  }

  lemma FallbackFits(sp: Pieces)
    requires PiecesFit(sp)
    ensures |sp.fallback| == 256
  {
  }

  lemma RouteIsRule(m: Merges, n: nat)
    requires NoMaxRank(m)
    ensures RouteMerges(m, n) == m
  {
  }

  /** A per-thread unit cache: a direct-mapped front over two maps into one arena. */
  class EncodeState {
    const front: nat -> nat
    var frontKeys: seq<nat>
    var frontVals: seq<Slice>
    var short: map<nat, Slice>
    var long: map<seq<Byte>, Slice>
    var arena: seq<Token>

    /** Every entry names its unit's encoding in mode `raw`. */
    ghost predicate Exact(sp: Pieces, raw: bool)
      requires |sp.fallback| == 256
      reads this
    {
      && ShortUnitsExact(sp, raw, short, arena) && LongUnitsExact(sp, raw, long, arena)
      && FrontFits(frontKeys, frontVals, short)
    }

    /** The unit key is cached. */
    ghost predicate Knows(key: seq<Byte>)
      reads this
    {
      if IsShort(key) then PackBytes(key) in short else key in long
    }

    constructor (front: nat -> nat)
      ensures forall sp: Pieces, raw :: |sp.fallback| == 256 ==> Exact(sp, raw)
      ensures this.front == front && arena == []
    {
      this.front := front;
      frontKeys, frontVals := seq(FRONT_SIZE, _ => 0), seq(FRONT_SIZE, _ => (0, 0));
      short, long, arena := map[], map[], [];
    }

    /**
     Encode one unit through the caches; `prefix` puts the virtual space in front of it
     and of its key.
     */
    method EncodeUnit(sp: Pieces, unit: seq<Byte>, prefix: bool, raw: bool) returns (ids: seq<Token>)
      requires Ranked(sp) && Exact(sp, raw) && Utf8.Valid(unit) && (prefix ==> raw)
      requires |arena| + 3 * |Prefixed(prefix, unit)| <= U32_MAX
      modifies this
      ensures Exact(sp, raw) && ids == Tokens(sp, raw, Prefixed(prefix, unit))
      ensures |arena| <= |old(arena)| + 3 * |Prefixed(prefix, unit)|
      ensures Knows(Prefixed(prefix, unit)) && old(short.Keys) <= short.Keys && old(long.Keys) <= long.Keys
      ensures old(Knows(Prefixed(prefix, unit))) ==> arena == old(arena) && short == old(short) && long == old(long)
    {
      hide ShortUnitsExact, LongUnitsExact, PackBytes, Tokens, Names, Ranked, Utf8.Valid;
      RankedFits(sp);
      var key := Prefixed(prefix, unit);
      if IsShort(key) {
        ids := EncodeShortUnit(sp, key, raw, unit, prefix);
      } else {
        if key in long {
          LongUnitHit(sp, raw, long, arena, key);
          return arena[long[key].0..long[key].0 + long[key].1];
        }
        ids := MergeUnit(sp, unit, prefix, raw);
        LongUnitStored(sp, raw, long, arena, key, ids);
        ShortUnitsAfterGrow(sp, raw, short, arena, ids);
        long := long[key := (|arena|, |ids|)];
        arena := arena + ids;
      }
    }

    /** A unit short enough for the packed key. */
    method EncodeShortUnit(sp: Pieces, key: seq<Byte>, raw: bool, unit: seq<Byte>,
                           prefix: bool) returns (ids: seq<Token>)
      requires Ranked(sp) && Exact(sp, raw) && Utf8.Valid(unit) && (prefix ==> raw)
      requires key == Prefixed(prefix, unit) && IsShort(key) && |arena| + 3 * |key| <= U32_MAX
      modifies this
      ensures Exact(sp, raw) && ids == Tokens(sp, raw, key) && |arena| <= |old(arena)| + 3 * |key|
      ensures PackBytes(key) in short && old(short.Keys) <= short.Keys && long == old(long)
      ensures old(PackBytes(key) in short) ==> arena == old(arena) && short == old(short)
    {
      hide ShortUnitsExact, LongUnitsExact, PackBytes, Tokens, Names, Ranked, Utf8.Valid;
      RankedFits(sp);
      PackBytesInjective(key, []);
      var packed := PackBytes(key);
      var at := front(packed) % FRONT_SIZE;
      if frontKeys[at] == packed {
        ShortUnitHit(sp, raw, short, arena, key);
        return arena[frontVals[at].0..frontVals[at].0 + frontVals[at].1];
      }
      if packed in short {
        ShortUnitHit(sp, raw, short, arena, key);
        frontKeys, frontVals := frontKeys[at := packed], frontVals[at := short[packed]];
        return arena[short[packed].0..short[packed].0 + short[packed].1];
      }
      ids := MergeUnit(sp, unit, prefix, raw);
      ShortUnitStored(sp, raw, short, arena, key, ids);
      LongUnitsAfterGrow(sp, raw, long, arena, ids);
      var slice := (|arena|, |ids|);
      arena := arena + ids;
      short := short[packed := slice];
      frontKeys, frontVals := frontKeys[at := packed], frontVals[at := slice];
    }

    /** Merge a unit no cache knows. */
    method MergeUnit(sp: Pieces, unit: seq<Byte>, prefix: bool, raw: bool) returns (ids: seq<Token>)
      requires Ranked(sp) && Utf8.Valid(unit) && (prefix ==> raw) && 3 * |Prefixed(prefix, unit)| <= U32_MAX
      ensures ids == Tokens(sp, raw, Prefixed(prefix, unit)) && |ids| <= 3 * |Prefixed(prefix, unit)|
    {
      hide Tokens, Ranked;
      UnitIsText(unit, prefix);
      RankedFits(sp);
      TokensSize(sp, raw, Prefixed(prefix, unit));
      ids := MergeText(sp, Prefixed(prefix, unit), raw);
    }
  }

  lemma RankedFits(sp: Pieces)
    requires Ranked(sp)
    ensures |sp.fallback| == 256
  {
  }

  lemma UnitIsText(unit: seq<Byte>, prefix: bool)
    requires Utf8.Valid(unit)
    ensures Utf8.Valid(Prefixed(prefix, unit))
  {
    assert Utf8.CharWidth([SPACE]) == 1 && [SPACE][1..] == [];
    Utf8.ValidConcat([SPACE], unit);
  }

  lemma ShortUnitHit(sp: Pieces, raw: bool, short: map<nat, Slice>, arena: seq<Token>, t: seq<Byte>)
    requires |sp.fallback| == 256 && ShortUnitsExact(sp, raw, short, arena) && IsShort(t)
    ensures PackBytes(t) in short ==> Names(short[PackBytes(t)], arena, Tokens(sp, raw, t))
    ensures forall s: Slice, ids: seq<Token> :: Names(s, arena, ids) ==>
              s.0 + s.1 <= |arena| && arena[s.0..s.0 + s.1] == ids
  {
  }

  lemma LongUnitHit(sp: Pieces, raw: bool, long: map<seq<Byte>, Slice>, arena: seq<Token>, t: seq<Byte>)
    requires |sp.fallback| == 256 && LongUnitsExact(sp, raw, long, arena) && t in long
    ensures long[t].0 + long[t].1 <= |arena| && arena[long[t].0..long[t].0 + long[t].1] == Tokens(sp, raw, t)
  {
  }

  // ------------------------------------------------------------------
  // Scanning
  // ------------------------------------------------------------------

  /** The end of the last mark that starts before `p`. */
  function LastMarkEnd(t: seq<Byte>, raw: bool, p: nat): Option<nat>
    requires p <= |t|
  {
    if p == 0 then None
    else if MarkWidth(t, p - 1, raw).Some? then Some(p - 1 + MarkWidth(t, p - 1, raw).value)
    else LastMarkEnd(t, raw, p - 1)
  }

  lemma {:induction false} LastMarkIsMark(t: seq<Byte>, raw: bool, p: nat)
    requires p <= |t| && LastMarkEnd(t, raw, p).Some?
    ensures exists j: nat :: j < p && MarkWidth(t, j, raw).Some?
                             && j + MarkWidth(t, j, raw).value == LastMarkEnd(t, raw, p).value
  {
    if MarkWidth(t, p - 1, raw).None? {
      LastMarkIsMark(t, raw, p - 1);
    }
  }

  /** At a mark, "the last mark ended here" is what the bytes before it say. */
  lemma LastMarkEndsHere(t: seq<Byte>, raw: bool, p: nat)
    requires p < |t| && MarkWidth(t, p, raw).Some?
    ensures LastMarkEnd(t, raw, p) == Some(p) <==> MarkEndsAt(t, p, raw)
  {
    if LastMarkEnd(t, raw, p) == Some(p) {
      LastMarkIsMark(t, raw, p);
    }
    if MarkEndsAt(t, p, raw) && MarkWidth(t, p - 1, raw).None? {
      assert MarkWidth(t, p - 3, raw) == Some(3);
      assert LastMarkEnd(t, raw, p - 2) == Some(p);
      assert LastMarkEnd(t, raw, p - 1) == Some(p);
    }
  }

  lemma EndByte(t: seq<Byte>, s: seq<Byte>)
    requires s != []
    ensures EndsWith(t, s) ==> t != [] && t[|t| - 1] == s[|s| - 1]
  {
  }

  /** The scanner's quick test and byte comparison are `Spans`. */
  method PieceSpansBoundary(speed: Speed, ghost v: Vocab, t: seq<Byte>, p: nat, w: nat) returns (r: bool)
    requires CrossFits(v, speed) && 0 < p && p + w <= |t|
    ensures r == Spans(speed.cross, t, p, w)
  {
    var prev := t[p - 1];
    if !speed.crossPrev[prev] {
      forall c | c in speed.cross
        ensures !EndsWith(t[..p], c.0)
      {
        EndByte(t[..p], c.0);
      }
      return false;
    }
    r := Spans(speed.cross, t, p, w);
  }

  /** Does the scanner close a unit before `p`? `ended` is where the last mark ended. */
  method Closes(speed: Speed, ghost v: Vocab, t: seq<Byte>, raw: bool, p: nat, ended: Option<nat>) returns (r: bool)
    requires SpeedFits(v, speed) && !speed.split.WholeChunk? && 0 < p < |t| && ended == LastMarkEnd(t, raw, p)
    ensures r <==> CutAt(v, speed.split.EveryMark?, raw, t, p)
  {
    hide AllCrossing, UnitsUsable, EndsWith, Occurs, MarkEndsAt;
    var b := t[p];
    if b == 0xE2 || (raw && b == SPACE) || b in speed.splitBytes {
      var w := MarkWidth(t, p, raw);
      if w.Some? {
        LastMarkEndsHere(t, raw, p);
        if speed.split.EveryMark? || ended != Some(p) {
          var spans := PieceSpansBoundary(speed, v, t, p, w.value);
          return !spans;
        }
        return false;
      }
      return speed.splitSafe[b][LastShown(t[p - 1], raw)];
    }
    r := false;
  }

  /** A cut falls on a character boundary, so both sides are valid text. */
  lemma CutEndsValid(v: Vocab, everyMark: bool, raw: bool, t: seq<Byte>, start: nat, p: nat)
    requires start < p < |t| && CutAt(v, everyMark, raw, t, p) && Utf8.Valid(t[start..])
    ensures Utf8.Valid(t[start..p]) && Utf8.Valid(t[p..])
  {
    hide AllCrossing, Occurs, MarkEndsAt, Spans;
    assert !Utf8.Continuation(t[p]);
    UnitEndsValid(t, start, p, false);
  }

  /** One scanned position: it either ends the unit or it does not. */
  lemma UnitsUnfold(sp: Pieces, everyMark: bool, raw: bool, prefix: bool, t: seq<Byte>, start: nat, p: nat)
    requires |sp.fallback| == 256 && start <= p < |t|
    ensures p > 0 && CutAt(sp.v, everyMark, raw, t, p) ==>
              UnitsFrom(sp, everyMark, raw, prefix, t, start, p)
              == Tokens(sp, raw, Prefixed(prefix && start == 0, t[start..p]))
                 + UnitsFrom(sp, everyMark, raw, prefix, t, p, p + 1)
    ensures !(p > 0 && CutAt(sp.v, everyMark, raw, t, p)) ==>
              UnitsFrom(sp, everyMark, raw, prefix, t, start, p)
              == UnitsFrom(sp, everyMark, raw, prefix, t, start, p + 1)
  {
  }

  lemma UnitsEnd(sp: Pieces, everyMark: bool, raw: bool, prefix: bool, t: seq<Byte>, start: nat)
    requires |sp.fallback| == 256 && start <= |t|
    ensures UnitsFrom(sp, everyMark, raw, prefix, t, start, |t|)
            == if start < |t| then Tokens(sp, raw, Prefixed(prefix && start == 0, t[start..])) else []
  {
  }

  /** Walk the text, closing a unit at every cut, and encode each unit through the cache. */
  method EncodeUnits(sp: Pieces, speed: Speed, state: EncodeState, t: seq<Byte>, prefix: bool, raw: bool)
    returns (out: seq<Token>)
    requires Ranked(sp) && SpeedFits(sp.v, speed) && !speed.split.WholeChunk?
    requires state.Exact(sp, raw) && Utf8.Valid(t) && (prefix ==> raw)
    requires |state.arena| + 3 * (|t| + 1) <= U32_MAX
    modifies state
    ensures state.Exact(sp, raw) && |state.arena| <= |old(state.arena)| + 3 * (|t| + 1)
    ensures out == Units(sp, speed.split.EveryMark?, raw, prefix, t)
  {
    hide Ranked, SpeedFits, CutAt, Tokens, Utf8.Valid, ShortUnitsExact, LongUnitsExact, FrontFits, UnitsFrom;
    RankedFits(sp);
    ghost var every := speed.split.EveryMark?;
    var unitStart, firstUnit := 0, true;
    var ended: Option<nat> := None;
    out := [];
    assert t[0..] == t;
    for p := 0 to |t|
      invariant unitStart <= p && (unitStart > 0 ==> unitStart < p) && (firstUnit <==> unitStart == 0)
      invariant ended == LastMarkEnd(t, raw, p)
      invariant state.Exact(sp, raw) && Utf8.Valid(t[unitStart..])
      invariant |state.arena| <= |old(state.arena)| + 3 * (unitStart + (if prefix && !firstUnit then 1 else 0))
      invariant out + UnitsFrom(sp, every, raw, prefix, t, unitStart, p) == Units(sp, every, raw, prefix, t)
    {
      UnitsUnfold(sp, every, raw, prefix, t, unitStart, p);
      if p > 0 {
        var closes := Closes(speed, sp.v, t, raw, p, ended);
        if closes {
          CutEndsValid(sp.v, every, raw, t, unitStart, p);
          var ids := state.EncodeUnit(sp, t[unitStart..p], prefix && firstUnit, raw);
          Reassociate(out, ids, UnitsFrom(sp, every, raw, prefix, t, p, p + 1));
          out, firstUnit, unitStart := out + ids, false, p;
        }
      }
      var w := MarkWidth(t, p, raw);
      if w.Some? {
        ended := Some(p + w.value);
      }
    }
    UnitsEnd(sp, every, raw, prefix, t, unitStart);
    if unitStart < |t| {
      var ids := state.EncodeUnit(sp, t[unitStart..], prefix && firstUnit, raw);
      out := out + ids;
    }
  }

  // ------------------------------------------------------------------
  // Normalized text
  // ------------------------------------------------------------------

  /**
   Encode normalized text: by units when they are usable, else in one merge. Unless the
   tokenizer splits at every mark by definition, both give the merge of the whole text.
   */
  method EncodeNormalized(sp: Pieces, speed: Speed, state: EncodeState, t: seq<Byte>) returns (out: seq<Token>)
    requires Ranked(sp) && SpeedFits(sp.v, speed) && state.Exact(sp, false)
    requires Utf8.Valid(t) && Covered(sp, t) && |state.arena| + 3 * (|t| + 1) <= U32_MAX
    modifies state
    ensures state.Exact(sp, false)
    ensures !speed.split.EveryMark? ==> out == Greedy(sp.m, Init(sp, t)) && Irreducible(sp.m, out)
    ensures speed.split.EveryMark? ==> out == Units(sp, true, false, false, t)
  {
    TokensAre(sp, t);
    hide Tokens, Utf8.Valid, ShortUnitsExact, LongUnitsExact, FrontFits, UnitsFrom, AllCrossing, SplitsFit, Greedy,
         Init;
    if speed.split.WholeChunk? {
      out := MergeText(sp, t, false);
    } else {
      out := EncodeUnits(sp, speed, state, t, false, false);
      if speed.split.SpaceRuns? {
        UnitsMatchWhole(sp, false, false, t);
      }
    }
  }

  /** Normalized text stands for itself. */
  lemma TokensAre(sp: Pieces, t: seq<Byte>)
    requires |sp.fallback| == 256
    ensures Tokens(sp, false, t) == Greedy(sp.m, Init(sp, t)) && Irreducible(sp.m, Tokens(sp, false, t))
  {
    GreedyIrreducible(sp.m, Init(sp, t));
  }

  // ------------------------------------------------------------------
  // Raw text
  // ------------------------------------------------------------------

  datatype SectionPos = First | Middle | Continuation

  datatype RawPrepend = NeverPrepend | Unguarded | GuardedAlways | GuardedFirst

  predicate StartsWithMark(t: seq<Byte>) {
    t != [] && MarkWidth(t, 0, true).Some?
  }

  /** Does the first unit carry the virtual leading space? */
  function VirtualPrefix(t: seq<Byte>, pos: SectionPos, prepend: RawPrepend): bool {
    if pos.Continuation? then false
    else match prepend
      case Unguarded => true
      case GuardedAlways => !StartsWithMark(t)
      case GuardedFirst => pos.First? && !StartsWithMark(t)
      case NeverPrepend => false
  }

  /** What the normalizer steps and the metaspace step make of a section before encoding. */
  function Normalized(t: seq<Byte>, pos: SectionPos, prepend: RawPrepend): seq<Byte> {
    if t == [] then []
    else match prepend
      case Unguarded => Replaced(MARK + t)
      case NeverPrepend => Replaced(t)
      case _ =>
        var shown := Replaced(t);
        if (prepend.GuardedFirst? && !pos.First?) || MARK <= shown then shown else MARK + shown
  }

  /** Raw text starts with a mark exactly when its normalized form does. */
  lemma MarkStartsShown(t: seq<Byte>)
    requires t != [] && Utf8.Valid(t)
    ensures MARK <= Replaced(t) <==> StartsWithMark(t)
  {
    var w := Utf8.CharWidth(t);
    var c, rest := t[..w], t[w..];
    assert t == c + rest;
    ReplacedConcat(c, rest);
    Utf8.CharWidthLocal(t, []);
    ReplacedChar(c);
    if t[0] != SPACE {
      if MARK <= Replaced(t) {
        assert t[0] == Replaced(t)[0] == 0xE2;
        assert w == 3;
        assert t[1] == Replaced(t)[1] && t[2] == Replaced(t)[2];
      }
      if MarkAt(t, 0) {
        assert c == MARK;
      }
    }
  }

  /** The virtual space stands for exactly what the materialised pipeline prepends. */
  lemma VirtualPrefixIsNormalizing(t: seq<Byte>, pos: SectionPos, prepend: RawPrepend)
    requires t != [] && Utf8.Valid(t) && !pos.Continuation?
    ensures Shown(Prefixed(VirtualPrefix(t, pos, prepend), t), true) == Normalized(t, pos, prepend)
  {
    hide Utf8.Valid, Replaced;
    MarkStartsShown(t);
    ReplacedConcat([SPACE], t);
    ReplacedOne(SPACE);
    ReplacedConcat(MARK, t);
    ReplacedPlain(MARK);
  }

  /** The raw fast path on one section. */
  method EncodeChunkRaw(sp: Pieces, speed: Speed, state: EncodeState, t: seq<Byte>, pos: SectionPos,
                        prepend: RawPrepend)
    returns (out: seq<Token>)
    requires Ranked(sp) && SpeedFits(sp.v, speed) && !speed.split.WholeChunk?
    requires state.Exact(sp, true) && Utf8.Valid(t) && |state.arena| + 3 * (|t| + 1) <= U32_MAX
    modifies state
    ensures state.Exact(sp, true) && |state.arena| <= |old(state.arena)| + 3 * (|t| + 1)
    ensures out == if t == [] then [] else Units(sp, speed.split.EveryMark?, true, VirtualPrefix(t, pos, prepend), t)
  {
    hide Ranked, SpeedFits, Utf8.Valid, ShortUnitsExact, LongUnitsExact, FrontFits, UnitsFrom;
    if t == [] {
      return [];
    }
    RankedFits(sp);
    var prefix := VirtualPrefix(t, pos, prepend);
    out := EncodeUnits(sp, speed, state, t, prefix, true);
  }

  /**
   The raw fast path is the materialised pipeline: units of raw text encode to one merge
   of the normalized section, under every prepend scheme.
   */
  lemma RawMatchesNormalized(sp: Pieces, t: seq<Byte>, pos: SectionPos, prepend: RawPrepend)
    requires PiecesFit(sp) && UnitsUsable(sp.v) && t != [] && Utf8.Valid(t) && !pos.Continuation?
    requires Covered(sp, Normalized(t, pos, prepend))
    ensures Units(sp, false, true, VirtualPrefix(t, pos, prepend), t)
            == Greedy(sp.m, Init(sp, Normalized(t, pos, prepend)))
  {
    hide Utf8.Valid, Covered, UnitsUsable, PiecesFit;
    FallbackFits(sp);
    VirtualPrefixIsNormalizing(t, pos, prepend);
    UnitsMatchWhole(sp, true, VirtualPrefix(t, pos, prepend), t);
  }
}

/** What the caches of the memoising encoder hold, and the output vector it fills. */
module MemoEntries {
  import opened Prelude
  import opened Bpe
  import opened BpeCuts
  import opened MergeScan
  import opened MergeEngine
  import opened FromRanks
  import opened ByteLevel
  import opened Packing

  /** The model fits the machine: 32-bit ids used as ranks, none of them reserved. */
  ghost predicate ModelFits(model: ByteModel) {
    && RanksFit(model.m) && IdRanked(model.m) && NoMaxRank(model.m) && Consistent(model.m, model.v)
    && |model.v| <= U32_MAX && forall b :: 0 <= b < 256 ==> model.base[b] <= U32_MAX
  }

  lemma NoLongIsExact(model: ByteModel, arena: seq<Token>)
    ensures LongExact(model, map[], arena)
  {
  }

  lemma SameTablesFit(model: ByteModel, now: ByteModel)
    requires ModelFits(model) && now.m == model.m && now.v == model.v && now.base == model.base
    ensures ModelFits(now)
  {
  }

  /** Forced splits need every byte's own token; without them any pretoken will do. */
  ghost predicate Splittable(model: ByteModel, t: seq<Byte>) {
    model.forceSplit && !model.ignoreMerges ==> SpellsBytes(model.v, model.base, t)
  }

  /** Every short entry stands for its key's encoding. */
  ghost predicate ShortExact(model: ByteModel, contents: map<nat, (nat, nat)>, arena: seq<Token>) {
    forall t: seq<Byte> :: IsShort(t) && PackBytes(t) in contents ==>
      Encodes(contents[PackBytes(t)].0, contents[PackBytes(t)].1, arena, Uncached(model, t))
  }

  /** Every long entry names its key's encoding in the arena. */
  ghost predicate LongExact(model: ByteModel, contents: map<seq<Byte>, (nat, nat)>, arena: seq<Token>) {
    forall t :: t in contents ==>
      && !IsShort(t)
      && contents[t].0 + contents[t].1 <= |arena|
      && arena[contents[t].0..contents[t].0 + contents[t].1] == Uncached(model, t)
  }

  /** The short entries of the vocabulary are in the short cache from the start. */
  ghost predicate Seeded(v: Vocab, contents: map<nat, (nat, nat)>) {
    forall i :: 0 <= i < |v| && IsShort(v[i]) ==> PackBytes(v[i]) in contents
  }

  lemma ShortAfterGrow(model: ByteModel, contents: map<nat, (nat, nat)>, arena: seq<Token>, arena': seq<Token>)
    requires ShortExact(model, contents, arena) && arena <= arena'
    ensures ShortExact(model, contents, arena')
  {
    hide Encodes, Uncached, PackBytes;
    forall t: seq<Byte> | IsShort(t) && PackBytes(t) in contents
      ensures Encodes(contents[PackBytes(t)].0, contents[PackBytes(t)].1, arena', Uncached(model, t))
    {
      assert arena' == arena + arena'[|arena|..];
      var entry := contents[PackBytes(t)];
      EncodesAfterGrow(entry.0, entry.1, arena, arena'[|arena|..], Uncached(model, t));
    }
  }

  lemma LongAfterGrow(model: ByteModel, contents: map<seq<Byte>, (nat, nat)>, arena: seq<Token>, arena': seq<Token>)
    requires LongExact(model, contents, arena) && arena <= arena'
    ensures LongExact(model, contents, arena')
  {
    hide Uncached;
    forall t | t in contents
      ensures contents[t].0 + contents[t].1 <= |arena'|
      ensures arena'[contents[t].0..contents[t].0 + contents[t].1] == Uncached(model, t)
    {
      var from, to := contents[t].0, contents[t].0 + contents[t].1;
      assert arena'[from..to] == arena[from..to];
    }
  }

  lemma ShortAfterStore(model: ByteModel, contents: map<nat, (nat, nat)>, arena: seq<Token>, t: seq<Byte>, val: nat,
                        ext: nat)
    requires ShortExact(model, contents, arena) && IsShort(t) && Encodes(val, ext, arena, Uncached(model, t))
    ensures ShortExact(model, contents[PackBytes(t) := (val, ext)], arena)
  {
    hide Encodes, Uncached, PackBytes;
    var after := contents[PackBytes(t) := (val, ext)];
    forall u: seq<Byte> | IsShort(u) && PackBytes(u) in after
      ensures Encodes(after[PackBytes(u)].0, after[PackBytes(u)].1, arena, Uncached(model, u))
    {
      PackBytesInjective(t, u);
    }
  }

  // ------------------------------------------------------------------
  // Sizes
  // ------------------------------------------------------------------

  lemma {:induction false} GreedyFits(m: Merges, s: seq<Token>)
    requires RanksFit(m) && IdRanked(m) && forall i :: 0 <= i < |s| ==> s[i] <= U32_MAX
    ensures forall i :: 0 <= i < |Greedy(m, s)| ==> Greedy(m, s)[i] <= U32_MAX
    decreases |s|
  {
    if Next(m, s).Some? {
      GreedyFits(m, Apply(m, s, Next(m, s).value));
    }
  }

  /** An encoding has no more tokens than bytes, and 32-bit ids. */
  lemma UncachedSize(model: ByteModel, t: seq<Byte>)
    requires ModelFits(model)
    ensures |Uncached(model, t)| <= |t| + 1 && (t != [] ==> 1 <= |Uncached(model, t)| <= |t|)
    ensures TokensFit(Uncached(model, t))
  {
    GreedySize(model.m, ByteInit(model.base, t));
    GreedyFits(model.m, ByteInit(model.base, t));
  }

  // ------------------------------------------------------------------
  // Output buffer
  // ------------------------------------------------------------------

  /** A growable output vector: `memory` is its allocation, the first `len` cells are committed. */
  class Output {
    var memory: seq<nat>
    var len: nat

    ghost predicate Valid()
      reads this
    {
      len <= |memory|
    }

    /** The committed ids. */
    ghost function Ids(): seq<nat>
      requires Valid()
      reads this
    {
      memory[..len]
    }

    constructor ()
      ensures Valid() && Ids() == []
    {
      memory, len := [], 0;
    }

    /** Make room for `more` cells past the committed ones. */
    method Reserve(more: nat)
      requires Valid()
      modifies this
      ensures Valid() && Ids() == old(Ids()) && len == old(len) && |memory| >= len + more
    {
      if |memory| < len + more {
        memory := memory[..len] + seq(more, _ => 0);
      }
    }

    /** Append ids at the committed end. */
    method Append(ids: seq<nat>)
      requires Valid()
      modifies this
      ensures Valid() && Ids() == old(Ids()) + ids
    {
      Reserve(|ids|);
      ghost var was := memory[..len];
      memory := memory[..len] + ids + memory[len + |ids|..];
      len := len + |ids|;
      assert memory[..len] == was + ids;
    }

    /** Store four lanes at `w` without committing them; the caller owes the room. */
    method StoreLanes(w: nat, lanes: seq<nat>)
      requires Valid() && len <= w && |lanes| == 4 && w + 4 <= |memory|
      modifies `memory
      ensures |memory| == |old(memory)| && memory[..w] == old(memory)[..w] && memory[w..w + 4] == lanes
    {
      memory := memory[w := lanes[0]][w + 1 := lanes[1]][w + 2 := lanes[2]][w + 3 := lanes[3]];
    }

    /** Commit the first `w` cells. */
    method SetLen(w: nat)
      requires w <= |memory|
      modifies `len
      ensures Valid() && len == w
    {
      len := w;
    }
  }

  // ------------------------------------------------------------------
  // What is remembered
  // ------------------------------------------------------------------

  /** Every cache entry stands for its key's encoding. */
  ghost predicate Remembered(model: ByteModel, short: map<nat, (nat, nat)>, long: map<seq<Byte>, (nat, nat)>,
                             arena: seq<Token>) {
    ShortExact(model, short, arena) && LongExact(model, long, arena) && Seeded(model.v, short)
  }

  /** Storing a short pretoken's packed encoding keeps every entry exact. */
  lemma ShortStored(model: ByteModel, short: map<nat, (nat, nat)>, long: map<seq<Byte>, (nat, nat)>,
                    arena: seq<Token>, grown: seq<Token>, t: seq<Byte>, val: nat, ext: nat)
    requires Remembered(model, short, long, arena) && arena <= grown
    requires IsShort(t) && Encodes(val, ext, grown, Uncached(model, t))
    ensures Remembered(model, short[PackBytes(t) := (val, ext)], long, grown)
  {
    hide ShortExact, LongExact, Seeded, Encodes, PackBytes, Uncached;
    ShortAfterGrow(model, short, arena, grown);
    LongAfterGrow(model, long, arena, grown);
    ShortAfterStore(model, short, grown, t, val, ext);
    SeedsKept(model.v, short, PackBytes(t), (val, ext));
  }

  /** Storing a long pretoken's encoding at the arena's end keeps every entry exact. */
  lemma LongStored(model: ByteModel, short: map<nat, (nat, nat)>, long: map<seq<Byte>, (nat, nat)>, arena: seq<Token>,
                   t: seq<Byte>, ids: seq<Token>)
    requires Remembered(model, short, long, arena)
    requires !IsShort(t) && ids == Uncached(model, t)
    ensures Remembered(model, short, long[t := (|arena|, |ids|)], arena + ids)
  {
    hide ShortExact, LongExact, Seeded, Uncached;
    ShortAfterGrow(model, short, arena, arena + ids);
    LongAfterGrow(model, long, arena, arena + ids);
    LongAfterStore(model, long, arena, t, ids);
  }

  lemma LongAfterStore(model: ByteModel, long: map<seq<Byte>, (nat, nat)>, arena: seq<Token>, t: seq<Byte>,
                       ids: seq<Token>)
    requires LongExact(model, long, arena + ids)
    requires !IsShort(t) && ids == Uncached(model, t)
    ensures LongExact(model, long[t := (|arena|, |ids|)], arena + ids)
  {
    hide Uncached;
    assert (arena + ids)[|arena|..|arena| + |ids|] == ids;
  }

  lemma AllVisible(m: Merges)
    requires NoMaxRank(m)
    ensures Visible(m) == m
  {
  }

  lemma SeedsKept(v: Vocab, contents: map<nat, (nat, nat)>, key: nat, value: (nat, nat))
    requires Seeded(v, contents)
    ensures Seeded(v, contents[key := value])
  {
  }

  lemma SeededNext(v: Vocab, i: nat, contents: map<nat, (nat, nat)>)
    requires i < |v| && Seeded(v[..i], contents) && (IsShort(v[i]) ==> PackBytes(v[i]) in contents)
    ensures Seeded(v[..i + 1], contents)
  {
    hide PackBytes;
    var before, after := v[..i], v[..i + 1];
    forall k | 0 <= k < |after| && IsShort(after[k])
      ensures PackBytes(after[k]) in contents
    {
      assert k < i ==> before[k] == after[k];
    }
  }

  lemma EmptyIsExact(model: ByteModel)
    ensures ShortExact(model, map[], []) && LongExact(model, map[], [])
  {
  }

  lemma SeedStored(v: Vocab, contents: map<nat, (nat, nat)>, t: seq<Byte>)
    requires Seeded(v, contents) && IsShort(t) && LastId(v, t).Some?
    ensures PackBytes(t) in contents
  {
    var id := LastId(v, t).value;
    assert v[id] == t;
  }

  /** A seeded cache has an entry for every added token it must override. */
  lemma OverwrittenIsSeeded(model: ByteModel, contents: map<nat, (nat, nat)>, t: seq<Byte>)
    requires Seeded(model.v, contents) && Overwritten(model, t)
    ensures PackBytes(t) in contents
  {
  }

  // ------------------------------------------------------------------
  // Changing the model under a filled short cache
  // ------------------------------------------------------------------

  /** Entries of `done` already hold the new model's encoding, the others still the old one's. */
  ghost predicate Rewriting(was: ByteModel, now: ByteModel, done: set<seq<Byte>>, contents: map<nat, (nat, nat)>,
                            arena: seq<Token>) {
    forall t: seq<Byte> :: IsShort(t) && PackBytes(t) in contents ==>
      Encodes(contents[PackBytes(t)].0, contents[PackBytes(t)].1, arena, Uncached(if t in done then now else was, t))
  }

  lemma RewriteStarts(was: ByteModel, now: ByteModel, contents: map<nat, (nat, nat)>, arena: seq<Token>)
    requires ShortExact(was, contents, arena)
    ensures Rewriting(was, now, {}, contents, arena)
  {
    hide Encodes, Uncached, PackBytes, IsShort;
  }

  lemma RewriteProceeds(was: ByteModel, now: ByteModel, done: set<seq<Byte>>, contents: map<nat, (nat, nat)>,
                        arena: seq<Token>, grown: seq<Token>, t: seq<Byte>, val: nat, ext: nat)
    requires Rewriting(was, now, done, contents, arena) && arena <= grown
    requires IsShort(t) && Encodes(val, ext, grown, Uncached(now, t))
    ensures Rewriting(was, now, done + {t}, contents[PackBytes(t) := (val, ext)], grown)
  {
    hide Encodes, Uncached, PackBytes;
    var after := contents[PackBytes(t) := (val, ext)];
    forall u: seq<Byte> | IsShort(u) && PackBytes(u) in after
      ensures var ids := Uncached(if u in done + {t} then now else was, u);
              Encodes(after[PackBytes(u)].0, after[PackBytes(u)].1, grown, ids)
    {
      PackBytesInjective(t, u);
      if u != t {
        assert grown == arena + grown[|arena|..];
        var entry, ids := after[PackBytes(u)], Uncached(if u in done then now else was, u);
        EncodesAfterGrow(entry.0, entry.1, arena, grown[|arena|..], ids);
      }
    }
  }

  /** Once every pretoken the two models disagree on is done, the cache is exact for the new one. */
  lemma RewriteEnds(was: ByteModel, now: ByteModel, done: set<seq<Byte>>, contents: map<nat, (nat, nat)>,
                    arena: seq<Token>)
    requires Rewriting(was, now, done, contents, arena)
    requires forall t: seq<Byte> :: IsShort(t) && t !in done ==> Uncached(was, t) == Uncached(now, t)
    ensures ShortExact(now, contents, arena)
  {
    hide Encodes, Uncached, PackBytes, IsShort;
  }

  /** Added tokens do not touch long pretokens. */
  lemma LongIgnoresAdded(model: ByteModel, added: seq<seq<Byte>>, contents: map<seq<Byte>, (nat, nat)>,
                         arena: seq<Token>, grown: seq<Token>)
    requires LongExact(model, contents, arena) && arena <= grown
    ensures LongExact(model.(added := added), contents, grown)
  {
    LongAfterGrow(model, contents, arena, grown);
  }

  /**
   After the whole-word flag flips, the long entries are exact exactly when no cached
   long pretoken is a vocabulary entry that merges to anything but its own id.
   */
  lemma FlagFlip(model: ByteModel, contents: map<seq<Byte>, (nat, nat)>, arena: seq<Token>)
    requires LongExact(model, contents, arena)
    ensures LongExact(model.(ignoreMerges := !model.ignoreMerges), contents, arena)
            <==> forall t :: t in contents ==> FlagBlind(model, t)
  {
    var now := model.(ignoreMerges := !model.ignoreMerges);
    forall t | t in contents
      ensures FlagBlind(model, t) <==> Uncached(model, t) == Uncached(now, t)
    {
    }
    if LongExact(now, contents, arena) {
      forall t | t in contents
        ensures FlagBlind(model, t)
      {
        assert Uncached(model, t) == Uncached(now, t);
      }
    }
  }

  /** The whole-word flag makes no difference to `t`: it is no entry, or merges to its own id. */
  predicate FlagBlind(model: ByteModel, t: seq<Byte>) {
    LastId(model.v, t).Some? ==> Greedy(model.m, ByteInit(model.base, t)) == [LastId(model.v, t).value]
  }

  /** The model's table is the one rebuilt from its entries, which are distinct. */
  ghost predicate Rebuilt(model: ByteModel) {
    && Distinct(model.v) && model.base == EncoderMap(model.v)
    && TableAfter(model.v, |model.v|) == Some(model.m)
  }

  /** A rebuilt table with narrow byte ids meets what every encoder of this project asks of its model. */
  lemma RebuiltFits(model: ByteModel)
    requires Rebuilt(model) && NarrowBytes(model.v) && |model.v| <= U32_MAX
    ensures ModelFits(model)
  {
    hide Consistent, TableAfter, Distinct, NarrowBytes;
    TableRanks(model.v, |model.v|, model.m);
    TableConsistent(model.v, |model.v|, model.m);
  }

  /** Under a rebuilt table the flag never makes a difference exactly when the entries' bytes have narrow ids. */
  lemma RebuiltIsFlagBlind(model: ByteModel)
    requires Rebuilt(model)
    ensures (forall t: seq<Byte> :: t != [] ==> FlagBlind(model, t)) <==> NarrowBytes(model.v)
  {
    hide Greedy, TableAfter, NarrowBytes;
    EntriesEncodeToThemselves(model.v, model.m);
    if NarrowBytes(model.v) {
      forall t: seq<Byte> | t != []
        ensures FlagBlind(model, t)
      {
        assert LastId(model.v, t).Some? ==> EncoderSymbols(model.v, t) == ByteInit(model.base, t);
      }
    } else {
      var k :| 0 <= k < |model.v| && model.v[k] != [] && Greedy(model.m, EncoderSymbols(model.v, model.v[k])) != [k];
      var t := model.v[k];
      assert LastId(model.v, t) == Some(k) && EncoderSymbols(model.v, t) == ByteInit(model.base, t);
      assert !FlagBlind(model, t);
    }
  }

  /** All single bytes and one more entry; nothing merges. */
  function WholeWordModel(t: seq<Byte>): ByteModel {
    ByteModel(map[], seq(256, b requires 0 <= b < 256 => [b]) + [t], seq(256, b => b), false, [], false)
  }

  /** Every key of the long cache is one that some model's flag makes a difference to. */
  lemma FlagIsNoticed(t: seq<Byte>)
    requires !IsShort(t)
    ensures ModelFits(WholeWordModel(t)) && SpellsBytes(WholeWordModel(t).v, WholeWordModel(t).base, t)
    ensures !FlagBlind(WholeWordModel(t), t)
  {
    var model := WholeWordModel(t);
    assert model.v[256] == t;
    NothingMerges(ByteInit(model.base, t));
    assert |ByteInit(model.base, t)| != 1;
  }

  // ------------------------------------------------------------------
  // What is remembered
  // ------------------------------------------------------------------

  /** All that an encoder remembers: both caches, their token arena and the long keys. */
  datatype Memo = Memo(
    short: map<nat, (nat, nat)>, long: map<seq<Byte>, (nat, nat)>, arena: seq<Token>, keyArena: seq<Byte>)

  /** One of the caches holds the pretoken. */
  ghost predicate Held(m: Memo, t: seq<Byte>) {
    if IsShort(t) then PackBytes(t) in m.short else t in m.long
  }

  /** Afterwards the pretokens are held, nothing was dropped, and nothing changed if they all were held before. */
  ghost predicate Remembers(before: Memo, after: Memo, ts: seq<seq<Byte>>) {
    && (forall i :: 0 <= i < |ts| ==> Held(after, ts[i]))
    && before.short.Keys <= after.short.Keys && before.long.Keys <= after.long.Keys
    && ((forall i :: 0 <= i < |ts| ==> Held(before, ts[i])) ==> after == before)
  }

  lemma RemembersNothing(m: Memo)
    ensures Remembers(m, m, [])
  {
  }

  lemma RemembersOne(before: Memo, after: Memo, t: seq<Byte>)
    ensures Remembers(before, after, [t]) <==>
            && Held(after, t) && before.short.Keys <= after.short.Keys && before.long.Keys <= after.long.Keys
            && (Held(before, t) ==> after == before)
  {
    hide Held;
    assert [t][0] == t;
  }

  lemma HeldIsRemembered(m: Memo, t: seq<Byte>)
    requires Held(m, t)
    ensures Remembers(m, m, [t])
  {
    RemembersOne(m, m, t);
  }

  lemma RemembersConcat(a: Memo, b: Memo, c: Memo, ts: seq<seq<Byte>>, us: seq<seq<Byte>>)
    requires Remembers(a, b, ts) && Remembers(b, c, us)
    ensures Remembers(a, c, ts + us)
  {
    var all := ts + us;
    forall i | 0 <= i < |all|
      ensures Held(c, all[i])
    {
      if i < |ts| {
        assert Held(b, ts[i]);
      } else {
        assert Held(c, us[i - |ts|]);
      }
    }
    hide Held;
    if forall i :: 0 <= i < |all| ==> Held(a, all[i]) {
      forall i | 0 <= i < |ts|
        ensures Held(a, ts[i])
      {
        assert all[i] == ts[i];
      }
      assert b == a;
      forall i | 0 <= i < |us|
        ensures Held(b, us[i])
      {
        assert all[|ts| + i] == us[i];
      }
    }
  }

  // ------------------------------------------------------------------
  // What one pretoken encodes to
  // ------------------------------------------------------------------

  /** A short added token's own bytes, or any bytes under the flag, are taken as a whole when they are an entry. */
  predicate TakenWhole(model: ByteModel, t: seq<Byte>) {
    (1 <= |t| <= SHORT_MAX && t in model.added) || model.ignoreMerges
  }

  /** An entry taken whole is the one id of the last entry with its bytes; anything else is merged from its bytes. */
  lemma OneEncoding(model: ByteModel, t: seq<Byte>)
    ensures TakenWhole(model, t) && t in model.v ==>
              exists id: nat :: id < |model.v| && model.v[id] == t && EncodeEach(model, [t]) == [id]
                                && forall i :: id < i < |model.v| ==> model.v[i] != t
    ensures !(TakenWhole(model, t) && t in model.v) ==>
              && EncodeEach(model, [t]) == Greedy(model.m, ByteInit(model.base, t))
              && Irreducible(model.m, EncodeEach(model, [t]))
  {
    var one: seq<seq<Byte>> := [t];
    assert one[..0] == [] && EncodeEach(model, one[..0]) == [];
    assert EncodeEach(model, one) == [] + Uncached(model, t) == Uncached(model, t);
    GreedyIrreducible(model.m, ByteInit(model.base, t));
    hide Greedy, EncodeEach;
    if t in model.v {
      var i :| 0 <= i < |model.v| && model.v[i] == t;
      var id := LastId(model.v, t).value;
      assert model.v[id] == t && forall i :: id < i < |model.v| ==> model.v[i] != t;
    }
  }

  /** Unless it is taken over by an added token, the flag matters to a pretoken, short or long, exactly as it says. */
  lemma FlagMatters(model: ByteModel, t: seq<Byte>)
    requires t !in model.added || !IsShort(t)
    ensures EncodeEach(model, [t]) == EncodeEach(model.(ignoreMerges := !model.ignoreMerges), [t]) <==>
            (t in model.v ==> exists id: nat ::
               id < |model.v| && model.v[id] == t && (forall i :: id < i < |model.v| ==> model.v[i] != t)
               && Greedy(model.m, ByteInit(model.base, t)) == [id])
  {
    var flipped := model.(ignoreMerges := !model.ignoreMerges);
    OneEncoding(model, t);
    OneEncoding(flipped, t);
    hide EncodeEach, Greedy, Irreducible;
  }

  // ------------------------------------------------------------------
  // Batches
  // ------------------------------------------------------------------

  /** The uncached encodings of the pretokens, in order. */
  function EncodeEach(model: ByteModel, ts: seq<seq<Byte>>): seq<Token> {
    if ts == [] then [] else EncodeEach(model, ts[..|ts| - 1]) + Uncached(model, ts[|ts| - 1])
  }

  lemma {:induction false} EncodeEachConcat(model: ByteModel, a: seq<seq<Byte>>, b: seq<seq<Byte>>)
    ensures EncodeEach(model, a + b) == EncodeEach(model, a) + EncodeEach(model, b)
  {
    if b == [] {
      assert a + b == a;
    } else {
      hide Uncached;
      var all, last := a + b, b[|b| - 1];
      EncodeEachConcat(model, a, b[..|b| - 1]);
      assert all[..|all| - 1] == a + b[..|b| - 1] && all[|all| - 1] == last;
      Reassociate(EncodeEach(model, a), EncodeEach(model, b[..|b| - 1]), Uncached(model, last));
    }
  }

  /** Space the pretokens can take: their bytes, and one more token each. */
  function Cost(ts: seq<seq<Byte>>): nat {
    if ts == [] then 0 else |ts[0]| + 1 + Cost(ts[1..])
  }

  lemma {:induction false} CostConcat(a: seq<seq<Byte>>, b: seq<seq<Byte>>)
    ensures Cost(a + b) == Cost(a) + Cost(b)
  {
    if a == [] {
      assert a + b == b;
    } else {
      CostConcat(a[1..], b);
      assert (a + b)[1..] == a[1..] + b;
    }
  }

  lemma CostStep(ts: seq<seq<Byte>>, i: nat)
    requires i < |ts|
    ensures Cost(ts[..i + 1]) == Cost(ts[..i]) + |ts[i]| + 1 && Cost(ts[..i + 1]) <= Cost(ts)
  {
    assert ts[..i + 1] == ts[..i] + [ts[i]];
    CostConcat(ts[..i], [ts[i]]);
    assert ts == ts[..i + 1] + ts[i + 1..];
    CostConcat(ts[..i + 1], ts[i + 1..]);
  }

  lemma EachStep(model: ByteModel, ts: seq<seq<Byte>>, i: nat)
    requires i < |ts|
    ensures EncodeEach(model, ts[..i + 1]) == EncodeEach(model, ts[..i]) + Uncached(model, ts[i])
  {
    hide Uncached;
    assert ts[..i + 1][..i] == ts[..i];
  }

  lemma EachEmpty(model: ByteModel)
    ensures EncodeEach(model, []) == []
  {
  }

  /** A batch entry: the packed key and its hash, or key 0 for a pretoken too long to pack. */
  datatype BatchEntry = BatchEntry(key: nat, meta: nat, bytes: seq<Byte>)

  ghost predicate Keyed(e: BatchEntry, hash: nat -> nat) {
    if IsShort(e.bytes) then e.key == PackBytes(e.bytes) && e.key != 0 && e.meta == hash(e.key) else e.key == 0
  }

  /** Key one pretoken. */
  method KeyOf(t: seq<Byte>, hash: nat -> nat) returns (e: BatchEntry)
    ensures e.bytes == t && Keyed(e, hash)
  {
    if IsShort(t) {
      PackBytesInjective(t, []);
      var key := PackBytes(t);
      e := BatchEntry(key, hash(key), t);
    } else {
      e := BatchEntry(0, |t|, t);
    }
  }

  /** The ids a packed value stands for. */
  function Unpack(val: nat, ext: nat, arena: seq<Token>): (ids: seq<Token>)
    requires exists meant: seq<Token> :: Encodes(val, ext, arena, meant)
    ensures Encodes(val, ext, arena, ids)
    ensures forall meant: seq<Token> :: Encodes(val, ext, arena, meant) ==> ids == meant
  {
    if Spilled(val) then arena[SpillOffset(val)..SpillOffset(val) + Count(val)]
    else Lanes(val, ext)[..Count(val)]
  }
}

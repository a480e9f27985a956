/**
 The memoising byte-level encoder: two caches over one append-only token arena, and
 an emit loop that writes four tokens unconditionally and advances by the real count.
 */
module MemoEncoder {
  import opened Prelude
  import opened Bpe
  import opened BpeCuts
  import opened MergeScan
  import opened MergeEngine
  import opened FromRanks
  import opened ForceSplit
  import opened ByteLevel
  import opened Packing
  import opened MemoEntries
  import ShortCache
  import LongCache

  const PRETOKEN_CHUNK: nat := 128

  function CountShort(v: Vocab): nat {
    if v == [] then 0 else CountShort(v[..|v| - 1]) + if IsShort(v[|v| - 1]) then 1 else 0
  }

  class Encoder {
    const short: ShortCache.ShortPretokenCache
    const long: LongCache.LongPretokenCache
    const bigrams: Bigrams
    var model: ByteModel
    var arena: seq<Token>

    /** Everything but the long entries is exact. */
    ghost predicate Loaded()
      reads this, short, long, bigrams.bits
    {
      && ModelFits(model) && bigrams.Holds(model.v) && short.Valid() && long.Valid()
      && ShortExact(model, short.contents, arena) && Seeded(model.v, short.contents)
    }

    ghost predicate Valid()
      reads this, short, long, bigrams.bits
    {
      Loaded() && LongExact(model, long.contents, arena)
    }

    ghost function State(): Memo
      reads this, short, long
    {
      Memo(short.contents, long.contents, arena, long.keyArena)
    }

    /** Offsets stay 32-bit while `extra` more bytes are encoded. */
    ghost predicate Room(extra: nat)
      reads this, long
    {
      |arena| + extra < SHIFT32 && |long.keyArena| + extra < LongCache.EMPTY_OFFSET
    }

    /** An encoder without added tokens, its short cache seeded with the vocabulary's short entries. */
    constructor (model: ByteModel, bigrams: Bigrams, minSlots: nat, hash: nat -> nat, sampled: seq<Byte> -> nat,
                 full: seq<Byte> -> nat)
      requires ModelFits(model) && model.added == [] && SHORT_MAX * |model.v| < SHIFT32
      requires bigrams.Holds(model.v)
      ensures Valid() && this.model == model && fresh(short) && fresh(long) && this.bigrams == bigrams
      ensures |arena| <= SHORT_MAX * |model.v| && long.contents == map[] && long.keyArena == []
      ensures short.hash == hash
    {
      this.model, this.bigrams, arena := model, bigrams, [];
      short := new ShortCache.ShortPretokenCache(CountShort(model.v), minSlots, hash);
      long := new LongCache.LongPretokenCache(0, sampled, full);
      new;
      Seed();
    }

    /** Store the seed encoding of every short entry the cache does not have yet. */
    method Seed()
      requires ModelFits(model) && bigrams.Holds(model.v) && short.Valid() && long.Valid()
      requires model.added == [] && SHORT_MAX * |model.v| < SHIFT32
      requires arena == [] && short.contents == map[] && long.contents == map[]
      modifies this`arena, short
      ensures Valid() && |arena| <= SHORT_MAX * |model.v|
    {
      hide ShortExact, ModelFits, ShortCache.ShortPretokenCache.Valid, LongCache.LongPretokenCache.Valid, Bigrams.Holds;
      EmptyIsExact(model);
      for i := 0 to |model.v|
        invariant model == old(model) && short.Valid() && long.Valid() && bigrams.Holds(model.v)
        invariant ShortExact(model, short.contents, arena) && Seeded(model.v[..i], short.contents)
        invariant |arena| <= SHORT_MAX * i
      {
        if IsShort(model.v[i]) {
          SeedOne(model.v[i]);
        }
        SeededNext(model.v, i, short.contents);
      }
      assert model.v[..|model.v|] == model.v;
      assert LongExact(model, long.contents, arena);
    }

    method SeedOne(t: seq<Byte>)
      requires ModelFits(model) && short.Valid() && ShortExact(model, short.contents, arena)
      requires model.added == [] && |arena| + SHORT_MAX < SHIFT32 && IsShort(t)
      modifies this`arena, short
      ensures short.Valid() && ShortExact(model, short.contents, arena)
      ensures |arena| <= |old(arena)| + SHORT_MAX
      ensures PackBytes(t) in short.contents && forall k :: k in old(short.contents) ==> k in short.contents
    {
      hide ShortExact, Encodes, Uncached, PackBytes;
      PackBytesInjective(t, []);
      var key := PackBytes(t);
      var at := short.GetOrSlot(key, short.hash(key));
      if at.Err? {
        UncachedSize(model, t);
        assert model.(added := []) == model;
        var ids := SeedSymbols(t);
        var val, ext, grown := PackVal(ids, arena);
        ShortAfterGrow(model, short.contents, arena, grown);
        ShortAfterStore(model, short.contents, grown, t, val, ext);
        short.Insert(key, short.hash(key), val, ext);
        arena := grown;
      }
    }

    /** A pretoken's encoding when no token is added: a whole entry's id under the flag, else its merge. */
    method SeedSymbols(t: seq<Byte>) returns (ids: seq<Token>)
      requires ModelFits(model) && |t| <= U32_MAX
      ensures ids == Uncached(model.(added := []), t)
    {
      AllVisible(model.m);
      if model.ignoreMerges {
        var id := LastId(model.v, t);
        if id.Some? {
          return [id.value];
        }
      }
      ids := MergeBytes(model.m, model.base, t);
    }

    // ----------------------------------------------------------------
    // Loading
    // ----------------------------------------------------------------

    /** Overwrite one short entry with what `now` encodes it to. */
    method Rewrite(ghost was: ByteModel, ghost now: ByteModel, ghost done: set<seq<Byte>>, t: seq<Byte>,
                   ids: seq<Token>)
      requires short.Valid() && Seeded(model.v, short.contents) && Rewriting(was, now, done, short.contents, arena)
      requires IsShort(t) && LastId(model.v, t).Some? && ids == Uncached(now, t) && ModelFits(now)
      requires |arena| + SHORT_MAX < SHIFT32
      modifies this`arena, short
      ensures short.Valid() && Seeded(model.v, short.contents)
      ensures Rewriting(was, now, done + {t}, short.contents, arena)
      ensures old(arena) <= arena && |arena| <= |old(arena)| + SHORT_MAX
      ensures short.contents.Keys == old(short.contents.Keys)
    {
      hide Rewriting, Encodes, Uncached, PackBytes, ModelFits, Seeded, LastId, ShortCache.ShortPretokenCache.Valid;
      UncachedSize(now, t);
      PackBytesInjective(t, []);
      var key := PackBytes(t);
      var val, ext, grown := PackVal(ids, arena);
      RewriteProceeds(was, now, done, short.contents, arena, grown, t, val, ext);
      SeedsKept(model.v, short.contents, key, (val, ext));
      SeedStored(model.v, short.contents, t);
      short.Replace(key, short.hash(key), val, ext);
      arena := grown;
    }

    /** Give every short added token that is an entry its own id. */
    method ApplyOverwrites(tokens: seq<seq<Byte>>)
      requires Loaded() && model.added == [] && |arena| + SHORT_MAX * |tokens| < SHIFT32
      modifies this, short
      ensures Loaded() && model == old(model).(added := tokens)
      ensures old(arena) <= arena && |arena| <= |old(arena)| + SHORT_MAX * |tokens|
      ensures short.contents.Keys == old(short.contents.Keys)
    {
      hide ShortExact, Rewriting, Encodes, PackBytes, ModelFits, Seeded, Bigrams.Holds,
           ShortCache.ShortPretokenCache.Valid, LongCache.LongPretokenCache.Valid;
      var now := model.(added := tokens);
      ghost var done: set<seq<Byte>> := {};
      RewriteStarts(model, now, short.contents, arena);
      SameTablesFit(model, now);
      for i := 0 to |tokens|
        invariant model == old(model) && short.Valid() && Seeded(model.v, short.contents)
        invariant Rewriting(model, now, done, short.contents, arena)
        invariant old(arena) <= arena && |arena| <= |old(arena)| + SHORT_MAX * i
        invariant short.contents.Keys == old(short.contents.Keys)
        invariant forall k :: 0 <= k < i && Overwritten(now, tokens[k]) ==> tokens[k] in done
      {
        var id := LastId(model.v, tokens[i]);
        if IsShort(tokens[i]) && id.Some? {
          Rewrite(model, now, done, tokens[i], [id.value]);
          done := done + {tokens[i]};
        }
      }
      RewriteEnds(model, now, done, short.contents, arena);
      model := now;
    }

    /** Replace the added tokens: undo the outgoing overwrites, then apply the incoming ones. */
    method SetAddedTokens(tokens: seq<seq<Byte>>)
      requires Valid() && |arena| + SHORT_MAX * (|model.added| + |tokens|) < SHIFT32
      modifies this, short
      ensures Valid() && model == old(model).(added := tokens)
      ensures old(arena) <= arena && |arena| <= |old(arena)| + SHORT_MAX * (|old(model).added| + |tokens|)
      ensures short.contents.Keys == old(short.contents.Keys)
    {
      RestoreSeeds();
      ApplyOverwrites(tokens);
      LongIgnoresAdded(old(model), tokens, long.contents, old(arena), arena);
    }

    /** Put the seed encoding back wherever an added token had taken over. */
    method RestoreSeeds()
      requires Loaded() && |arena| + SHORT_MAX * |model.added| < SHIFT32
      modifies this, short
      ensures Loaded() && model == old(model).(added := [])
      ensures old(arena) <= arena && |arena| <= |old(arena)| + SHORT_MAX * |old(model).added|
      ensures short.contents.Keys == old(short.contents.Keys)
    {
      hide ShortExact, Rewriting, Encodes, PackBytes, ModelFits, Seeded, Bigrams.Holds,
           ShortCache.ShortPretokenCache.Valid, LongCache.LongPretokenCache.Valid;
      var outgoing, now := model.added, model.(added := []);
      ghost var done: set<seq<Byte>> := {};
      RewriteStarts(model, now, short.contents, arena);
      SameTablesFit(model, now);
      for i := 0 to |outgoing|
        invariant model == old(model) && short.Valid() && Seeded(model.v, short.contents)
        invariant Rewriting(model, now, done, short.contents, arena)
        invariant old(arena) <= arena && |arena| <= |old(arena)| + SHORT_MAX * i
        invariant short.contents.Keys == old(short.contents.Keys)
        invariant forall k :: 0 <= k < i && Overwritten(model, outgoing[k]) ==> outgoing[k] in done
      {
        if IsShort(outgoing[i]) && LastId(model.v, outgoing[i]).Some? {
          var ids := SeedSymbols(outgoing[i]);
          Rewrite(model, now, done, outgoing[i], ids);
          done := done + {outgoing[i]};
        }
      }
      RewriteEnds(model, now, done, short.contents, arena);
      model := now;
    }

    /**
     Switch the whole-word flag: the short cache is rewritten, the long cache is not. So
     the encoder stays exact exactly when no cached long pretoken notices the flag.
     */
    method SetIgnoreMerges(flag: bool)
      requires Valid() && |arena| + SHORT_MAX * (|model.v| + |model.added|) < SHIFT32
      modifies this, short
      ensures Loaded() && model == old(model).(ignoreMerges := flag)
      ensures Valid() <==>
                flag == old(model).ignoreMerges || forall t :: t in long.contents ==> FlagBlind(old(model), t)
      ensures Rebuilt(old(model)) && NarrowBytes(old(model).v) && [] !in long.contents ==> Valid()
      ensures old(arena) <= arena && |arena| <= |old(arena)| + SHORT_MAX * (|model.v| + |model.added|)
      ensures short.contents.Keys == old(short.contents.Keys)
    {
      if Rebuilt(model) {
        RebuiltIsFlagBlind(model);
      }
      hide ShortExact, LongExact, FlagBlind, ModelFits, Seeded, Rebuilt, NarrowBytes;
      if model.ignoreMerges == flag {
        return;
      }
      LongAfterGrow(model, long.contents, arena, arena);
      var added := model.added;
      RewriteSeeds(flag);
      ApplyOverwrites(added);
      LongAfterGrow(old(model), long.contents, old(arena), arena);
      FlagFlip(old(model), long.contents, arena);
      assert model == old(model).(ignoreMerges := !old(model).ignoreMerges);
    }

    /** Rewrite every short entry of the vocabulary to its seed encoding under the flag. */
    method RewriteSeeds(flag: bool)
      requires Loaded() && |arena| + SHORT_MAX * |model.v| < SHIFT32
      modifies this, short
      ensures Loaded() && model == old(model).(ignoreMerges := flag, added := [])
      ensures old(arena) <= arena && |arena| <= |old(arena)| + SHORT_MAX * |model.v|
      ensures short.contents.Keys == old(short.contents.Keys)
    {
      hide ShortExact, Rewriting, Encodes, PackBytes, ModelFits, Seeded, Bigrams.Holds,
           ShortCache.ShortPretokenCache.Valid, LongCache.LongPretokenCache.Valid;
      ghost var was := model;
      var now := model.(ignoreMerges := flag, added := []);
      ghost var done: set<seq<Byte>> := {};
      RewriteStarts(was, now, short.contents, arena);
      SameTablesFit(was, now);
      model := now;
      for i := 0 to |model.v|
        invariant model == now && short.Valid() && Seeded(model.v, short.contents)
        invariant Rewriting(was, now, done, short.contents, arena)
        invariant old(arena) <= arena && |arena| <= |old(arena)| + SHORT_MAX * i
        invariant short.contents.Keys == old(short.contents.Keys)
        invariant forall k :: 0 <= k < i && IsShort(model.v[k]) ==> model.v[k] in done
      {
        if IsShort(model.v[i]) {
          var ids := SeedSymbols(model.v[i]);
          Rewrite(was, now, done, model.v[i], ids);
          done := done + {model.v[i]};
        }
      }
      RewriteEnds(was, now, done, short.contents, arena);
    }

    /** A new encoder of the same model, with its own freshly seeded caches. */
    method Fork(minSlots: nat) returns (fork: Encoder)
      requires Valid() && SHORT_MAX * (|model.v| + |model.added|) < SHIFT32
      ensures fresh(fork) && fresh(fork.short) && fresh(fork.long) && fork.bigrams == bigrams
      ensures fork.Valid() && fork.model == model
      ensures |fork.arena| <= SHORT_MAX * (|model.v| + |model.added|) && fork.long.keyArena == []
    {
      hide ShortExact, LongExact, Seeded, ModelFits, Bigrams.Holds;
      var plain := model.(added := []);
      SameTablesFit(model, plain);
      fork := new Encoder(plain, bigrams, minSlots, short.hash, long.sampled, long.full);
      fork.ApplyOverwrites(model.added);
      NoLongIsExact(fork.model, fork.arena);
      assert fork.model == model;
    }

    // ----------------------------------------------------------------
    // Misses
    // ----------------------------------------------------------------

    /** Merge a pretoken from its bytes, in forced pieces when it has any. */
    method ComputeMiss(t: seq<Byte>) returns (ids: seq<Token>)
      requires Valid() && Splittable(model, t) && |t| <= U32_MAX && !Overwritten(model, t)
      ensures ids == Uncached(model, t)
    {
      hide ShortExact, LongExact, Seeded, Occurs, SpellsBytes, LastId;
      AllVisible(model.m);
      if model.forceSplit && !model.ignoreMerges {
        var pieces := EncodeForceSplit(model.m, model.v, model.base, bigrams, t);
        if pieces.Some? {
          return pieces.value;
        }
      }
      ids := SeedSymbols(t);
    }

    /** Compute, remember and emit a pretoken no cache knows. */
    method EncodeMiss(t: seq<Byte>, key: nat, h: nat, slot: nat, out: Output)
      requires Valid() && out.Valid() && Splittable(model, t) && Room(|t| + 1)
      requires key != 0 ==>
                 && IsShort(t) && key == PackBytes(t) && h == short.hash(key) && key !in short.contents
                 && |short.slots| > 0 && |short.slots| % 2 == 0
                 && ShortCache.FirstFree(short.slots, ShortCache.HomePair(h, |short.slots|), slot)
      requires key == 0 ==> !IsShort(t) && t !in long.contents
      modifies this, short, long, out
      ensures Valid() && out.Valid() && out.Ids() == old(out.Ids()) + Uncached(model, t)
      ensures model == old(model) && |arena| <= |old(arena)| + |t| + 1
      ensures |long.keyArena| <= |old(long.keyArena)| + |t|
      ensures Held(State(), t)
      ensures old(short.contents.Keys) <= short.contents.Keys && old(long.contents.Keys) <= long.contents.Keys
    {
      hide ShortExact, LongExact, Seeded, Encodes, PackBytes, Splittable, ModelFits, Uncached,
           ShortCache.ShortPretokenCache.Valid, LongCache.LongPretokenCache.Valid, Bigrams.Holds;
      NotOverwritten(t, key);
      UncachedSize(model, t);
      var ids := ComputeMiss(t);
      if key != 0 {
        RememberShort(t, key, h, slot, ids);
      } else {
        RememberLong(t, ids);
      }
      out.Append(ids);
    }

    lemma NotOverwritten(t: seq<Byte>, key: nat)
      requires Seeded(model.v, short.contents)
      requires IsShort(t) ==> PackBytes(t) !in short.contents
      ensures !Overwritten(model, t)
    {
      if Overwritten(model, t) {
        OverwrittenIsSeeded(model, short.contents, t);
      }
    }

    /** Store a short pretoken's packed encoding at the slot its lookup reported. */
    method RememberShort(t: seq<Byte>, key: nat, h: nat, slot: nat, ids: seq<Token>)
      requires Valid() && Room(|t| + 1) && ids == Uncached(model, t)
      requires IsShort(t) && key == PackBytes(t) && h == short.hash(key) && key !in short.contents
      requires |short.slots| > 0 && |short.slots| % 2 == 0
      requires ShortCache.FirstFree(short.slots, ShortCache.HomePair(h, |short.slots|), slot)
      modifies this`arena, short
      ensures Valid() && |arena| <= |old(arena)| + |t|
      ensures short.contents.Keys == old(short.contents.Keys) + {PackBytes(t)}
    {
      hide ShortExact, LongExact, Encodes, PackBytes, Uncached, ModelFits, Seeded, Bigrams.Holds,
           ShortCache.ShortPretokenCache.Valid, LongCache.LongPretokenCache.Valid;
      UncachedSize(model, t);
      PackBytesInjective(t, []);
      var val, ext, grown := PackVal(ids, arena);
      ShortStored(model, short.contents, long.contents, arena, grown, t, val, ext);
      short.InsertAt(slot, key, h, val, ext);
      arena := grown;
    }

    /** Store a long pretoken's encoding in the arena. */
    method RememberLong(t: seq<Byte>, ids: seq<Token>)
      requires Valid() && Room(|t| + 1) && ids == Uncached(model, t)
      requires !IsShort(t) && t !in long.contents
      modifies this`arena, long
      ensures Valid() && |arena| <= |old(arena)| + |t| + 1 && |long.keyArena| <= |old(long.keyArena)| + |t|
      ensures long.contents.Keys == old(long.contents.Keys) + {t}
    {
      hide ShortExact, LongExact, Encodes, Uncached, IsShort, ModelFits, Seeded, Bigrams.Holds,
           ShortCache.ShortPretokenCache.Valid, LongCache.LongPretokenCache.Valid;
      UncachedSize(model, t);
      LongStored(model, short.contents, long.contents, arena, t, ids);
      var previous := long.Insert(t, (|arena|, |ids|));
      arena := arena + ids;
    }

    // ----------------------------------------------------------------
    // Emitting
    // ----------------------------------------------------------------

    /** What the fast predicate rejects: probe walks, spills, long pretokens and misses. */
    method ProbeEmitSlow(e: BatchEntry, out: Output, w: nat) returns (w': nat)
      requires Valid() && out.Valid() && Keyed(e, short.hash)
      requires Splittable(model, e.bytes) && Room(|e.bytes| + 1) && w <= |out.memory|
      modifies this, short, long, out
      ensures Valid() && model == old(model)
      ensures |arena| <= |old(arena)| + |e.bytes| + 1 && |long.keyArena| <= |old(long.keyArena)| + |e.bytes|
      ensures out.Valid() && w' == out.len && |out.memory| >= w' + 4 * PRETOKEN_CHUNK
      ensures out.Ids() == old(out.memory[..w]) + Uncached(model, e.bytes)
      ensures Remembers(old(State()), State(), [e.bytes])
    {
      hide ShortExact, LongExact, Seeded, Encodes, Uncached, PackBytes, Splittable, ModelFits, Lanes,
           ShortCache.ShortPretokenCache.Valid, LongCache.LongPretokenCache.Valid, Bigrams.Holds;
      out.SetLen(w);
      KnownByKey(e);
      if e.key != 0 {
        var at := short.GetOrSlot(e.key, e.meta);
        match at {
          case Ok(value) =>
            ShortHit(e.bytes);
            out.Append(Unpack(value.0, value.1, arena));
          case Err(slot) =>
            EncodeMiss(e.bytes, e.key, e.meta, slot, out);
        }
      } else {
        var at := long.Get(e.bytes);
        match at {
          case Some(value) =>
            LongHit(e.bytes);
            out.Append(arena[value.0..value.0 + value.1]);
          case None =>
            EncodeMiss(e.bytes, 0, 0, 0, out);
        }
      }
      RemembersOne(old(State()), State(), e.bytes);
      w' := out.len;
      out.Reserve(4 * PRETOKEN_CHUNK);
    }

    /** A keyed pretoken is known exactly when the cache its key points to holds it. */
    lemma KnownByKey(e: BatchEntry)
      requires Keyed(e, short.hash)
      ensures e.key != 0 ==> IsShort(e.bytes) && (Held(State(), e.bytes) <==> e.key in short.contents)
      ensures e.key == 0 ==> !IsShort(e.bytes) && (Held(State(), e.bytes) <==> e.bytes in long.contents)
    {
      hide PackBytes;
    }

    /** A short entry decodes to its key's encoding. */
    lemma ShortHit(t: seq<Byte>)
      requires Valid() && IsShort(t) && PackBytes(t) in short.contents
      ensures Encodes(short.contents[PackBytes(t)].0, short.contents[PackBytes(t)].1, arena, Uncached(model, t))
    {
      hide Encodes, Uncached;
    }

    /** A long entry names its key's encoding. */
    lemma LongHit(t: seq<Byte>)
      requires Valid() && t in long.contents
      ensures long.contents[t].0 + long.contents[t].1 <= |arena|
      ensures arena[long.contents[t].0..long.contents[t].0 + long.contents[t].1] == Uncached(model, t)
    {
      hide Uncached;
    }

    /**
     Emit one pretoken at cursor `w`: four lanes are stored whatever the probe said, and
     the cursor moves past the real ones. `rest` is the room later pretokens rely on.
     */
    method EmitOne(e: BatchEntry, out: Output, w: nat, ghost rest: nat) returns (w': nat)
      requires Valid() && out.Valid() && Keyed(e, short.hash) && out.len <= w
      requires Splittable(model, e.bytes) && Room(|e.bytes| + 1)
      requires rest <= 4 * PRETOKEN_CHUNK && w + 4 + rest <= |out.memory|
      modifies this, short, long, out
      ensures Valid() && model == old(model)
      ensures |arena| <= |old(arena)| + |e.bytes| + 1 && |long.keyArena| <= |old(long.keyArena)| + |e.bytes|
      ensures out.Valid() && out.len <= w' && w' + rest <= |out.memory|
      ensures out.memory[..w'] == old(out.memory[..w]) + Uncached(model, e.bytes)
      ensures Remembers(old(State()), State(), [e.bytes])
    {
      hide ShortExact, LongExact, Seeded, Encodes, Uncached, PackBytes, Splittable, ModelFits, Lanes, Spilled, Count,
           IsShort, Held, Remembers, Keyed, ShortCache.ShortPretokenCache.Valid, LongCache.LongPretokenCache.Valid,
           Bigrams.Holds;
      KnownByKey(e);
      var val, ext, found := short.ProbePair(e.key, e.meta);
      var fast := found && !Spilled(val) && e.key != 0;
      ghost var written := out.memory[..w];
      out.StoreLanes(w, Lanes(val, ext));
      if fast {
        FastHit(e, val, ext);
        HeldIsRemembered(State(), e.bytes);
        w' := w + Count(val);
        LanesJoin(out.memory, w, Count(val));
      } else {
        w' := ProbeEmitSlow(e, out, w);
        assert out.memory[..w'] == out.Ids();
      }
    }

    lemma LanesJoin(memory: seq<Token>, w: nat, count: nat)
      requires w + 4 <= |memory| && count <= 4
      ensures memory[..w + count] == memory[..w] + memory[w..w + 4][..count]
    {
    }

    /** A fast hit's lanes, cut to the count, are the pretoken's encoding. */
    lemma FastHit(e: BatchEntry, val: nat, ext: nat)
      requires Valid() && Keyed(e, short.hash) && e.key != 0
      requires e.key in short.contents && short.contents[e.key] == (val, ext) && !Spilled(val)
      ensures Count(val) <= 4 && Lanes(val, ext)[..Count(val)] == Uncached(model, e.bytes)
    {
      ShortHit(e.bytes);
      hide Uncached, Lanes, Spilled, Count;
    }

    /**
     Probe and emit one batch: the ids are appended in order, `ends[i]` is where pretoken
     `i`'s ids stop, and every store stays inside the reserved room.
     */
    method ProbeEmitChunk(batch: seq<BatchEntry>, ghost ts: seq<seq<Byte>>, out: Output) returns (ends: seq<nat>)
      requires Valid() && out.Valid() && Room(Cost(ts)) && |batch| <= PRETOKEN_CHUNK
      requires Batched(batch, ts)
      modifies this, short, long, out
      ensures Valid() && model == old(model) && |arena| <= |old(arena)| + Cost(ts)
      ensures |long.keyArena| <= |old(long.keyArena)| + Cost(ts)
      ensures out.Valid() && out.Ids() == old(out.Ids()) + EncodeEach(model, ts)
      ensures |ends| == |ts|
      ensures forall k :: 0 <= k < |ts| ==> ends[k] == |old(out.Ids())| + |EncodeEach(model, ts[..k + 1])|
      ensures Remembers(old(State()), State(), ts)
    {
      hide ShortExact, LongExact, Splittable, Keyed, Uncached, EncodeEach, ModelFits, Seeded, Remembers, Bigrams.Holds,
           ShortCache.ShortPretokenCache.Valid, LongCache.LongPretokenCache.Valid;
      ends := [];
      out.Reserve(4 * |batch|);
      var w := out.len;
      ghost var before := out.Ids();
      assert EncodeEach(model, ts[..0]) == [] by {
        EachEmpty(model);
      }
      RemembersNothing(State());
      for i := 0 to |batch|
        invariant Valid() && model == old(model) && out.Valid() && out.len <= w && w + 4 * (|batch| - i) <= |out.memory|
        invariant |arena| <= |old(arena)| + Cost(ts[..i]) && |long.keyArena| <= |old(long.keyArena)| + Cost(ts[..i])
        invariant out.memory[..w] == before + EncodeEach(model, ts[..i])
        invariant |ends| == i
        invariant forall k :: 0 <= k < i ==> ends[k] == |before| + |EncodeEach(model, ts[..k + 1])|
        invariant Remembers(old(State()), State(), ts[..i])
      {
        CostStep(ts, i);
        EachStep(model, ts, i);
        ghost var known := State();
        w := EmitOne(batch[i], out, w, 4 * (|batch| - i - 1));
        RemembersConcat(old(State()), known, State(), ts[..i], [ts[i]]);
        assert ts[..i + 1] == ts[..i] + [ts[i]];
        ends := ends + [w];
      }
      assert ts[..|batch|] == ts;
      out.SetLen(w);
    }

    ghost predicate Batched(batch: seq<BatchEntry>, ts: seq<seq<Byte>>)
      reads this
    {
      |batch| == |ts| && forall i :: 0 <= i < |ts| ==>
        Keyed(batch[i], short.hash) && batch[i].bytes == ts[i] && Splittable(model, ts[i])
    }

    ghost predicate AllSplittable(ts: seq<seq<Byte>>)
      reads this
    {
      forall i :: 0 <= i < |ts| ==> Splittable(model, ts[i])
    }

    /** Key a run of pretokens. */
    method FillBatch(ts: seq<seq<Byte>>) returns (batch: seq<BatchEntry>)
      requires AllSplittable(ts)
      ensures Batched(batch, ts) && |batch| == |ts|
    {
      hide Keyed, Splittable;
      batch := [];
      for i := 0 to |ts|
        invariant |batch| == i
        invariant forall k :: 0 <= k < i ==> Keyed(batch[k], short.hash) && batch[k].bytes == ts[k]
      {
        var e := KeyOf(ts[i], short.hash);
        batch := batch + [e];
      }
    }

    /** Append every pretoken's ids, batch by batch: the uncached encodings, whatever was cached before. */
    method EncodeFlat(ts: seq<seq<Byte>>, out: Output)
      requires Valid() && out.Valid() && Room(Cost(ts)) && AllSplittable(ts)
      modifies this, short, long, out
      ensures Valid() && model == old(model)
      ensures |arena| <= |old(arena)| + Cost(ts) && |long.keyArena| <= |old(long.keyArena)| + Cost(ts)
      ensures out.Valid() && out.Ids() == old(out.Ids()) + EncodeEach(model, ts)
      ensures Remembers(old(State()), State(), ts)
    {
      hide LongExact, Loaded, Splittable, EncodeEach, Batched, Remembers, ShortCache.ShortPretokenCache.Valid,
           LongCache.LongPretokenCache.Valid, Bigrams.Holds;
      var at := 0;
      EachEmpty(model);
      RemembersNothing(State());
      assert ts[..0] == [];
      while at < |ts|
        invariant at <= |ts| && Valid() && model == old(model) && out.Valid()
        invariant |arena| <= |old(arena)| + Cost(ts[..at]) && |long.keyArena| <= |old(long.keyArena)| + Cost(ts[..at])
        invariant out.Ids() == old(out.Ids()) + EncodeEach(model, ts[..at])
        invariant Remembers(old(State()), State(), ts[..at])
      {
        var n := if |ts| - at < PRETOKEN_CHUNK then |ts| - at else PRETOKEN_CHUNK;
        BatchStep(model, ts, at, n);
        var batch := FillBatch(ts[at..at + n]);
        ghost var known := State();
        var _ := ProbeEmitChunk(batch, ts[at..at + n], out);
        RemembersConcat(old(State()), known, State(), ts[..at], ts[at..at + n]);
        assert ts[..at + n] == ts[..at] + ts[at..at + n];
        at := at + n;
      }
      assert ts[..at] == ts;
    }

    /** Deliver every pretoken's ids as a slice of its own. */
    method MemoizedEncode(ts: seq<seq<Byte>>) returns (slices: seq<seq<Token>>)
      requires Valid() && Room(Cost(ts)) && AllSplittable(ts)
      modifies this, short, long
      ensures Valid() && model == old(model)
      ensures |slices| == |ts| && forall i :: 0 <= i < |ts| ==> slices[i] == Uncached(model, ts[i])
    {
      hide LongExact, Loaded, Splittable, EncodeEach, Uncached, Batched, Remembers, ShortCache.ShortPretokenCache.Valid,
           LongCache.LongPretokenCache.Valid, Bigrams.Holds;
      slices := [];
      var at := 0;
      assert ts[..0] == [];
      while at < |ts|
        invariant at <= |ts| && Valid() && model == old(model)
        invariant |arena| <= |old(arena)| + Cost(ts[..at]) && |long.keyArena| <= |old(long.keyArena)| + Cost(ts[..at])
        invariant |slices| == at && forall i :: 0 <= i < at ==> slices[i] == Uncached(model, ts[i])
      {
        var n := if |ts| - at < PRETOKEN_CHUNK then |ts| - at else PRETOKEN_CHUNK;
        BatchStep(model, ts, at, n);
        var out := new Output();
        var batch := FillBatch(ts[at..at + n]);
        var ends := ProbeEmitChunk(batch, ts[at..at + n], out);
        var more := Slices(model, ts[at..at + n], out.memory[..out.len], ends);
        slices := slices + more;
        at := at + n;
      }
    }
  }

  lemma BatchStep(model: ByteModel, ts: seq<seq<Byte>>, at: nat, n: nat)
    requires at + n <= |ts|
    ensures Cost(ts[..at + n]) == Cost(ts[..at]) + Cost(ts[at..at + n]) && Cost(ts[..at + n]) <= Cost(ts)
    ensures EncodeEach(model, ts[..at + n]) == EncodeEach(model, ts[..at]) + EncodeEach(model, ts[at..at + n])
  {
    hide EncodeEach;
    assert ts[..at + n] == ts[..at] + ts[at..at + n];
    CostConcat(ts[..at], ts[at..at + n]);
    EncodeEachConcat(model, ts[..at], ts[at..at + n]);
    assert ts == ts[..at + n] + ts[at + n..];
    CostConcat(ts[..at + n], ts[at + n..]);
  }

  /** Cut a batch's ids at the recorded ends: one exact slice per pretoken. */
  method Slices(ghost model: ByteModel, ts: seq<seq<Byte>>, ids: seq<Token>, ends: seq<nat>)
    returns (slices: seq<seq<Token>>)
    requires ids == EncodeEach(model, ts) && |ends| == |ts|
    requires forall k :: 0 <= k < |ts| ==> ends[k] == |EncodeEach(model, ts[..k + 1])|
    ensures |slices| == |ts| && forall i :: 0 <= i < |ts| ==> slices[i] == Uncached(model, ts[i])
  {
    hide EncodeEach, Uncached;
    slices := [];
    var start := 0;
    EachEmpty(model);
    assert ts[..0] == [];
    for i := 0 to |ts|
      invariant |slices| == i && start == |EncodeEach(model, ts[..i])| && start <= |ids|
      invariant forall k :: 0 <= k < i ==> slices[k] == Uncached(model, ts[k])
    {
      EachStep(model, ts, i);
      BatchStep(model, ts, i + 1, |ts| - i - 1);
      assert ts[..|ts|] == ts;
      slices := slices + [ids[start..ends[i]]];
      start := ends[i];
    }
  }
}

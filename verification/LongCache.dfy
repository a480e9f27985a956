/**
 The cache for long pretokens: keys in an append-only byte arena, linear probing,
 doubling at three-quarters load, and one switch from a sampled to a full hash when
 a probe gets long.
 */
module LongCache {
  import opened Prelude
  import opened Probing

  const EMPTY_OFFSET: nat := U32_MAX
  const MIN_SLOTS: nat := 64
  const MAX_SAMPLED_DISPLACEMENT: nat := 64

  type Key = seq<Byte>
  type Value = (nat, nat)

  datatype Entry = Entry(hash: nat, keyOffset: nat, keyLen: nat, value: Value) {
    predicate Occupied() {
      keyOffset != EMPTY_OFFSET
    }
  }

  const EMPTY := Entry(0, EMPTY_OFFSET, 0, (0, 0))

  /** The key bytes of an occupied entry lie inside the arena. */
  predicate KeyFits(e: Entry, arena: seq<Byte>) {
    e.Occupied() ==> e.keyOffset + e.keyLen <= |arena|
  }

  function KeyOf(e: Entry, arena: seq<Byte>): Key
    requires KeyFits(e, arena) && e.Occupied()
  {
    arena[e.keyOffset..e.keyOffset + e.keyLen]
  }

  ghost predicate KeysFit(slots: seq<Entry>, arena: seq<Byte>) {
    forall p :: 0 <= p < |slots| ==> KeyFits(slots[p], arena)
  }

  /** The entry as a cell of the probing ring. */
  function AsCell(e: Entry, arena: seq<Byte>): Cell<Key, Value>
    requires KeyFits(e, arena)
  {
    if e.Occupied() then Cell(KeyOf(e, arena), e.value) else Free
  }

  ghost function Cells(slots: seq<Entry>, arena: seq<Byte>): (cells: seq<Cell<Key, Value>>)
    requires KeysFit(slots, arena)
    ensures |cells| == |slots| && forall p :: 0 <= p < |slots| ==> cells[p] == AsCell(slots[p], arena)
  {
    seq(|slots|, p requires 0 <= p < |slots| => AsCell(slots[p], arena))
  }

  /** A key stored at the one offset that means "empty" is lost: its entry reads as a free slot. */
  lemma MarkerOffsetIsLost(hash: nat, key: Key, value: Value, arena: seq<Byte>)
    ensures var e := Entry(hash, |arena|, |key|, value);
            KeyFits(e, arena + key) && (AsCell(e, arena + key) == Cell(key, value) <==> |arena| != EMPTY_OFFSET)
            && (AsCell(e, arena + key).Free? <==> |arena| == EMPTY_OFFSET)
  {
    assert (arena + key)[|arena|..|arena| + |key|] == key;
  }

  /** The home slot of a hash on a ring of `n` slots: `hash & (n - 1)`. */
  function HomeSlot(hash: nat, n: nat): (h: nat)
    requires n > 0
    ensures h < n
  {
    hash % n
  }

  function Home(hash: Key -> nat, n: nat): Key -> nat
    requires n > 0
  {
    k => HomeSlot(hash(k), n)
  }

  /** Every occupied entry stores its key's hash. */
  ghost predicate HashesStored(slots: seq<Entry>, arena: seq<Byte>, hash: Key -> nat)
    requires KeysFit(slots, arena)
  {
    forall p :: 0 <= p < |slots| && slots[p].Occupied() ==> slots[p].hash == hash(KeyOf(slots[p], arena))
  }

  /** A ring of entries that represents `m` under the given hash. */
  ghost predicate Ring(slots: seq<Entry>, arena: seq<Byte>, hash: Key -> nat, m: map<Key, Value>) {
    && |slots| > 0 && KeysFit(slots, arena) && HashesStored(slots, arena, hash)
    && Table(Cells(slots, arena), Home(hash, |slots|), m)
  }

  /** Appending to the arena changes no stored key. */
  lemma ArenaGrows(slots: seq<Entry>, arena: seq<Byte>, more: seq<Byte>)
    requires KeysFit(slots, arena)
    ensures KeysFit(slots, arena + more) && Cells(slots, arena + more) == Cells(slots, arena)
  {
    forall p | 0 <= p < |slots|
      ensures KeyFits(slots[p], arena + more) && AsCell(slots[p], arena + more) == AsCell(slots[p], arena)
    {
      if slots[p].Occupied() {
        var from, to := slots[p].keyOffset, slots[p].keyOffset + slots[p].keyLen;
        assert (arena + more)[from..to] == arena[from..to];
      }
    }
  }

  lemma RingAfterGrow(slots: seq<Entry>, arena: seq<Byte>, more: seq<Byte>, hash: Key -> nat, m: map<Key, Value>)
    requires Ring(slots, arena, hash, m)
    ensures Ring(slots, arena + more, hash, m)
    ensures Occupied(Cells(slots, arena + more)) == Occupied(Cells(slots, arena))
  {
    ArenaGrows(slots, arena, more);
    forall p | 0 <= p < |slots| && slots[p].Occupied()
      ensures slots[p].hash == hash(KeyOf(slots[p], arena + more))
    {
      assert Cells(slots, arena + more)[p] == Cells(slots, arena)[p];
    }
  }

  /** Storing an entry whose key's walk ends at the free slot `p`. */
  lemma StoreEntry(slots: seq<Entry>, arena: seq<Byte>, hash: Key -> nat, m: map<Key, Value>, e: Entry, p: nat)
    requires Ring(slots, arena, hash, m) && p < |slots| && !slots[p].Occupied()
    requires e.Occupied() && KeyFits(e, arena) && e.hash == hash(KeyOf(e, arena)) && KeyOf(e, arena) !in m
    requires var h := HomeSlot(e.hash, |slots|);
             Passed(Cells(slots, arena), h, Dist(|slots|, h, p), KeyOf(e, arena))
    ensures Ring(slots[p := e], arena, hash, m[KeyOf(e, arena) := e.value])
    ensures Occupied(Cells(slots[p := e], arena)) == Occupied(Cells(slots, arena)) + 1
  {
    var cells, k := Cells(slots, arena), KeyOf(e, arena);
    assert Cells(slots[p := e], arena) == cells[p := Cell(k, e.value)];
    StoreKeeps(cells, Home(hash, |slots|), m, k, e.value, p);
    OccupiedUpdate(cells, p, Cell(k, e.value));
  }

  /** Walk from the entry's home to the first free slot and store it there. */
  method Reinsert(slots: seq<Entry>, ghost arena: seq<Byte>, ghost hash: Key -> nat, ghost m: map<Key, Value>, e: Entry)
    returns (r: seq<Entry>)
    requires Ring(slots, arena, hash, m) && Occupied(Cells(slots, arena)) < |slots|
    requires e.Occupied() && KeyFits(e, arena) && e.hash == hash(KeyOf(e, arena)) && KeyOf(e, arena) !in m
    ensures Ring(r, arena, hash, m[KeyOf(e, arena) := e.value]) && |r| == |slots|
    ensures Occupied(Cells(r, arena)) == Occupied(Cells(slots, arena)) + 1
  {
    hide Ring;
    RingFacts(slots, arena, hash, m);
    ghost var cells, k := Cells(slots, arena), KeyOf(e, arena);
    var home := HomeSlot(e.hash, |slots|);
    var slot: nat := home;
    while slots[slot].Occupied()
      invariant slot < |slots| && Passed(cells, home, Dist(|slots|, home, slot), k)
      decreases |slots| - Dist(|slots|, home, slot)
    {
      KeyNotHere(slots, arena, hash, m, slot, k);
      StepPast(cells, home, slot, k);
      slot := NextOnRing(|slots|, slot);
    }
    StoreEntry(slots, arena, hash, m, e, slot);
    r := slots[slot := e];
  }

  lemma RingFacts(slots: seq<Entry>, arena: seq<Byte>, hash: Key -> nat, m: map<Key, Value>)
    requires Ring(slots, arena, hash, m)
    ensures |slots| > 0 && KeysFit(slots, arena)
    ensures forall p :: 0 <= p < |slots| && slots[p].Occupied() ==>
              slots[p].hash == hash(KeyOf(slots[p], arena))
  {
  }

  lemma KeyNotHere(slots: seq<Entry>, arena: seq<Byte>, hash: Key -> nat, m: map<Key, Value>, p: nat, k: Key)
    requires Ring(slots, arena, hash, m) && p < |slots| && slots[p].Occupied() && k !in m
    ensures KeyOf(slots[p], arena) != k
  {
    assert Cells(slots, arena)[p] == Cell(KeyOf(slots[p], arena), slots[p].value);
  }

  /** The pairs held by the first `i` slots. */
  ghost predicate HoldsPrefix(slots: seq<Entry>, arena: seq<Byte>, m: map<Key, Value>, i: nat, sub: map<Key, Value>)
    requires KeysFit(slots, arena) && i <= |slots|
  {
    && (forall k :: k in sub ==> k in m && sub[k] == m[k])
    && forall p :: 0 <= p < |slots| && slots[p].Occupied() ==> (KeyOf(slots[p], arena) in sub <==> p < i)
  }

  lemma KeysDiffer(slots: seq<Entry>, arena: seq<Byte>, hash: Key -> nat, m: map<Key, Value>, p: nat, q: nat)
    requires Ring(slots, arena, hash, m) && p < |slots| && q < |slots| && p != q
    requires slots[p].Occupied() && slots[q].Occupied()
    ensures KeyOf(slots[p], arena) != KeyOf(slots[q], arena)
  {
    var cells := Cells(slots, arena);
    assert cells[p].key != cells[q].key;
  }

  lemma PrefixGrows(slots: seq<Entry>, arena: seq<Byte>, hash: Key -> nat, m: map<Key, Value>, i: nat,
                    sub: map<Key, Value>)
    requires Ring(slots, arena, hash, m) && i < |slots| && HoldsPrefix(slots, arena, m, i, sub)
    ensures slots[i].Occupied() ==>
              HoldsPrefix(slots, arena, m, i + 1, sub[KeyOf(slots[i], arena) := slots[i].value])
              && KeyOf(slots[i], arena) !in sub
    ensures !slots[i].Occupied() ==> HoldsPrefix(slots, arena, m, i + 1, sub)
  {
    hide KeyOf;
    if slots[i].Occupied() {
      var k := KeyOf(slots[i], arena);
      forall p | 0 <= p < |slots| && p != i && slots[p].Occupied()
        ensures KeyOf(slots[p], arena) != k
      {
        KeysDiffer(slots, arena, hash, m, i, p);
      }
      FoundValue(slots, arena, hash, m, i);
      hide Ring;
    }
  }

  lemma PrefixIsAll(slots: seq<Entry>, arena: seq<Byte>, hash: Key -> nat, m: map<Key, Value>, sub: map<Key, Value>)
    requires Ring(slots, arena, hash, m) && HoldsPrefix(slots, arena, m, |slots|, sub)
    ensures sub == m
  {
    var cells := Cells(slots, arena);
    forall k | k in m
      ensures k in sub
    {
      var p :| 0 <= p < |cells| && cells[p] == Cell(k, m[k]);
      assert KeyOf(slots[p], arena) in sub;
    }
  }

  /** The refill loop after `i` slots: `r` holds exactly their pairs. */
  ghost predicate Refilling(slots: seq<Entry>, arena: seq<Byte>, m: map<Key, Value>, i: nat,
                            r: seq<Entry>, newHash: Key -> nat, sub: map<Key, Value>)
    requires KeysFit(slots, arena) && i <= |slots|
  {
    && Ring(r, arena, newHash, sub)
    && HoldsPrefix(slots, arena, m, i, sub)
    && Occupied(Cells(r, arena)) + Occupied(Cells(slots, arena)[i..]) == Occupied(Cells(slots, arena))
  }

  /** Move one slot's entry, if it holds one. */
  method MoveEntry(slots: seq<Entry>, arena: seq<Byte>, ghost hash: Key -> nat, ghost m: map<Key, Value>, i: nat,
                   r: seq<Entry>, newHash: Key -> nat, ghost sub: map<Key, Value>, recompute: bool)
    returns (r': seq<Entry>, ghost sub': map<Key, Value>)
    requires Ring(slots, arena, hash, m) && i < |slots|
    requires Refilling(slots, arena, m, i, r, newHash, sub) && Occupied(Cells(slots, arena)) < |r|
    requires recompute || newHash == hash
    ensures Refilling(slots, arena, m, i + 1, r', newHash, sub') && |r'| == |r|
  {
    hide Ring, Occupied;
    RingFacts(slots, arena, hash, m);
    r', sub' := r, sub;
    PrefixGrows(slots, arena, hash, m, i, sub);
    OccupiedDrop(Cells(slots, arena), i);
    if slots[i].Occupied() {
      var key := KeyOf(slots[i], arena);
      var entry := if recompute then slots[i].(hash := newHash(key)) else slots[i];
      r' := Reinsert(r, arena, newHash, sub, entry);
      sub' := sub[key := slots[i].value];
    }
  }

  /** Move every occupied entry into a fresh ring, optionally under another hash. */
  method Refill(slots: seq<Entry>, arena: seq<Byte>, ghost hash: Key -> nat, ghost m: map<Key, Value>,
                newLen: nat, newHash: Key -> nat, recompute: bool)
    returns (r: seq<Entry>)
    requires Ring(slots, arena, hash, m) && |slots| <= newLen && Occupied(Cells(slots, arena)) < newLen
    requires recompute || newHash == hash
    ensures Ring(r, arena, newHash, m) && |r| == newLen
    ensures Occupied(Cells(r, arena)) == Occupied(Cells(slots, arena))
  {
    hide Ring, Occupied, Refilling;
    RingFacts(slots, arena, hash, m);
    r := seq(newLen, _ => EMPTY);
    ghost var sub: map<Key, Value> := map[];
    RefillStarts(slots, arena, m, r, newHash);
    for i := 0 to |slots|
      invariant |r| == newLen && Refilling(slots, arena, m, i, r, newHash, sub)
    {
      r, sub := MoveEntry(slots, arena, hash, m, i, r, newHash, sub, recompute);
    }
    RefillEnds(slots, arena, hash, m, r, newHash, sub);
  }

  lemma RefillStarts(slots: seq<Entry>, arena: seq<Byte>, m: map<Key, Value>, r: seq<Entry>, newHash: Key -> nat)
    requires KeysFit(slots, arena) && |r| > 0 && forall p :: 0 <= p < |r| ==> r[p] == EMPTY
    ensures Refilling(slots, arena, m, 0, r, newHash, map[])
  {
    EmptyRing(r, arena, newHash);
    assert Cells(slots, arena)[0..] == Cells(slots, arena);
  }

  lemma RefillEnds(slots: seq<Entry>, arena: seq<Byte>, hash: Key -> nat, m: map<Key, Value>,
                   r: seq<Entry>, newHash: Key -> nat, sub: map<Key, Value>)
    requires Ring(slots, arena, hash, m) && Refilling(slots, arena, m, |slots|, r, newHash, sub)
    ensures Ring(r, arena, newHash, m) && Occupied(Cells(r, arena)) == Occupied(Cells(slots, arena))
  {
    OccupiedNothing(Cells(slots, arena)[|slots|..]);
    PrefixIsAll(slots, arena, hash, m, sub);
  }

  lemma EmptyRing(slots: seq<Entry>, arena: seq<Byte>, hash: Key -> nat)
    requires |slots| > 0 && forall p :: 0 <= p < |slots| ==> slots[p] == EMPTY
    ensures Ring(slots, arena, hash, map[]) && Occupied(Cells(slots, arena)) == 0
  {
    AllFree(Cells(slots, arena), Home(hash, |slots|));
  }

  /** Where a probe for a key ended. */
  datatype Outcome = Found(slot: nat) | Vacant(slot: nat) | TooFar

  /** Probe for a key; with a limit, give up after that many displacements. */
  method Seek(slots: seq<Entry>, arena: seq<Byte>, hash: Key -> nat, ghost m: map<Key, Value>, key: Key,
              limit: Option<nat>)
    returns (r: Outcome)
    requires Ring(slots, arena, hash, m) && Occupied(Cells(slots, arena)) < |slots|
    ensures r.Found? ==> r.slot < |slots| && slots[r.slot].Occupied() && KeyOf(slots[r.slot], arena) == key
    ensures r.Found? ==> key in m && m[key] == slots[r.slot].value
    ensures r.Vacant? ==> r.slot < |slots| && !slots[r.slot].Occupied() && key !in m
    ensures r.Vacant? ==> var h := HomeSlot(hash(key), |slots|);
                          Passed(Cells(slots, arena), h, Dist(|slots|, h, r.slot), key)
    ensures r.TooFar? ==> limit.Some?
  {
    hide Ring, Occupied;
    RingFacts(slots, arena, hash, m);
    ghost var cells := Cells(slots, arena);
    var wanted := hash(key);
    var home := HomeSlot(wanted, |slots|);
    var slot: nat, displacement: nat := home, 0;
    while true
      invariant slot < |slots| && Passed(cells, home, Dist(|slots|, home, slot), key)
      decreases |slots| - Dist(|slots|, home, slot)
    {
      var entry := slots[slot];
      if !entry.Occupied() {
        VacantMeansAbsent(slots, arena, hash, m, key, slot);
        return Vacant(slot);
      }
      if entry.hash == wanted && KeyOf(entry, arena) == key {
        FoundValue(slots, arena, hash, m, slot);
        return Found(slot);
      }
      StepPast(cells, home, slot, key);
      slot := NextOnRing(|slots|, slot);
      displacement := displacement + 1;
      if limit.Some? && displacement > limit.value {
        return TooFar;
      }
    }
  }

  lemma VacantMeansAbsent(slots: seq<Entry>, arena: seq<Byte>, hash: Key -> nat, m: map<Key, Value>, key: Key, p: nat)
    requires Ring(slots, arena, hash, m) && p < |slots| && !slots[p].Occupied()
    requires var h := HomeSlot(hash(key), |slots|); Passed(Cells(slots, arena), h, Dist(|slots|, h, p), key)
    ensures key !in m
  {
    FreeMeansAbsent(Cells(slots, arena), Home(hash, |slots|), m, key, p);
  }

  lemma FoundValue(slots: seq<Entry>, arena: seq<Byte>, hash: Key -> nat, m: map<Key, Value>, p: nat)
    requires Ring(slots, arena, hash, m) && p < |slots| && slots[p].Occupied()
    ensures KeyOf(slots[p], arena) in m && m[KeyOf(slots[p], arena)] == slots[p].value
  {
    assert Cells(slots, arena)[p] == Cell(KeyOf(slots[p], arena), slots[p].value);
  }

  lemma OverwriteEntry(slots: seq<Entry>, arena: seq<Byte>, hash: Key -> nat, m: map<Key, Value>, p: nat, value: Value)
    requires Ring(slots, arena, hash, m) && p < |slots| && slots[p].Occupied()
    ensures Ring(slots[p := slots[p].(value := value)], arena, hash, m[KeyOf(slots[p], arena) := value])
    ensures Occupied(Cells(slots[p := slots[p].(value := value)], arena)) == Occupied(Cells(slots, arena))
  {
    var cells := Cells(slots, arena);
    assert cells[p] == Cell(KeyOf(slots[p], arena), slots[p].value);
    var after := slots[p := slots[p].(value := value)];
    assert Cells(after, arena) == cells[p := Cell(cells[p].key, value)];
    OverwriteKeeps(cells, Home(hash, |slots|), m, value, p);
    OccupiedUpdate(cells, p, Cell(cells[p].key, value));
  }

  lemma MinSlotsIsPower()
    ensures PowerOfTwo(MIN_SLOTS)
  {
    assert PowerOfTwo(16);
  }

  /** Enough slots for `capacity` entries at three-quarters load. */
  function SlotsFor(capacity: nat): nat {
    NextPowerOfTwo((capacity * 4 + 2) / 3, MIN_SLOTS)
  }

  class LongPretokenCache {
    const sampled: Key -> nat
    const full: Key -> nat
    var slots: seq<Entry>
    var keyArena: seq<Byte>
    var len: nat
    var fullHash: bool
    ghost var contents: map<Key, Value>

    /** The hash in force. */
    function Hash(): Key -> nat
      reads this
    {
      if fullHash then full else sampled
    }

    ghost predicate Valid()
      reads this
    {
      && (slots == [] ==> contents == map[] && len == 0)
      && (slots != [] ==>
            && Ring(slots, keyArena, Hash(), contents)
            && Occupied(Cells(slots, keyArena)) == len
            && |slots| >= MIN_SLOTS && PowerOfTwo(|slots|)
            && 4 * len <= 3 * |slots|)
    }

    constructor (capacity: nat, sampled: Key -> nat, full: Key -> nat)
      ensures Valid() && contents == map[] && keyArena == []
      ensures this.sampled == sampled && this.full == full
    {
      this.sampled, this.full := sampled, full;
      len, keyArena, contents, fullHash := 0, [], map[], false;
      slots := if capacity == 0 then [] else seq(SlotsFor(capacity), _ => EMPTY);
      new;
      if capacity > 0 {
        EmptyRing(slots, keyArena, Hash());
        MinSlotsIsPower();
        NextIsPower((capacity * 4 + 2) / 3, MIN_SLOTS);
      }
    }

    method Get(key: Key) returns (r: Option<Value>)
      requires Valid()
      ensures r == if key in contents then Some(contents[key]) else None
    {
      if slots == [] {
        return None;
      }
      var at := Seek(slots, keyArena, Hash(), contents, key, None);
      r := if at.Found? then Some(slots[at.slot].value) else None;
    }

    /** Double the ring; nothing stored changes. */
    method Grow()
      requires Valid()
      modifies `slots
      ensures Valid() && 4 * (len + 1) <= 3 * |slots|
      ensures |slots| == if old(slots) == [] then MIN_SLOTS else 2 * |old(slots)|
    {
      hide Ring, Occupied, PowerOfTwo, Cells;
      if slots == [] {
        slots := seq(MIN_SLOTS, _ => EMPTY);
        EmptyRing(slots, keyArena, Hash());
        MinSlotsIsPower();
      } else {
        DoubleIsPower(|slots|);
        slots := Refill(slots, keyArena, Hash(), contents, 2 * |slots|, Hash(), false);
      }
    }

    /** Rehash every key in full; nothing stored changes. */
    method SwitchToFullHash()
      requires Valid() && slots != [] && !fullHash
      modifies `slots, `fullHash
      ensures Valid() && fullHash && |slots| == |old(slots)|
    {
      slots := Refill(slots, keyArena, Hash(), contents, |slots|, full, true);
      fullHash := true;
    }

    /**
     Store a pair, whatever growth or hash switch that takes. Key offsets must stay
     below the empty marker.
     */
    method Insert(key: Key, value: Value) returns (previous: Option<Value>)
      requires Valid() && (key in contents || |keyArena| < EMPTY_OFFSET)
      modifies this
      ensures Valid() && contents == old(contents)[key := value]
      ensures previous == if key in old(contents) then Some(old(contents)[key]) else None
      ensures keyArena == if key in old(contents) then old(keyArena) else old(keyArena) + key
      decreases !fullHash
    {
      hide Ring, Occupied, PowerOfTwo, Cells, KeysFit;
      if slots == [] || (len + 1) * 4 > |slots| * 3 {
        Grow();
      }
      var at := Seek(slots, keyArena, Hash(), contents, key, if fullHash then None else Some(MAX_SAMPLED_DISPLACEMENT));
      match at {
        case Vacant(slot) =>
          Append(key, value, slot);
          previous := None;
        case Found(slot) =>
          previous := Some(slots[slot].value);
          OverwriteEntry(slots, keyArena, Hash(), contents, slot, value);
          slots := slots[slot := slots[slot].(value := value)];
          contents := contents[key := value];
        case TooFar =>
          SwitchToFullHash();
          previous := Insert(key, value);
      }
    }

    /** Put a new key's bytes in the arena and its entry in the slot its probe ended at. */
    method Append(key: Key, value: Value, slot: nat)
      requires Valid() && slots != [] && 4 * (len + 1) <= 3 * |slots|
      requires slot < |slots| && !slots[slot].Occupied() && key !in contents && |keyArena| < EMPTY_OFFSET
      requires var h := HomeSlot(Hash()(key), |slots|);
               Passed(Cells(slots, keyArena), h, Dist(|slots|, h, slot), key)
      modifies this
      ensures Valid() && contents == old(contents)[key := value] && keyArena == old(keyArena) + key
    {
      hide Ring, Occupied, PowerOfTwo;
      RingFacts(slots, keyArena, Hash(), contents);
      var entry := Entry(Hash()(key), |keyArena|, |key|, value);
      RingAfterGrow(slots, keyArena, key, Hash(), contents);
      ArenaGrows(slots, keyArena, key);
      assert KeyOf(entry, keyArena + key) == key;
      StoreEntry(slots, keyArena + key, Hash(), contents, entry, slot);
      keyArena := keyArena + key;
      slots := slots[slot := entry];
      len := len + 1;
      contents := contents[key := value];
    }
  }
}

/**
 The pair-rank table of the merge loops: a dense grid for small ids over a complete
 flat table of packed slots with linear probing.
 */
module PairRanks {
  import opened Prelude
  import opened Probing

  const ID_LIMIT: nat := 0x20_0000       // 2^21
  const U64_MAX: nat := 0xFFFF_FFFF_FFFF_FFFF
  const DENSE: nat := 2048               // 2^11
  const MAX_DISPLACEMENT: nat := 64
  const MIN_SLOTS: nat := 64

  type Pair = (nat, nat)

  /** The 42-bit key of a pair: `(left << 21) | right`. */
  function PackKey(left: nat, right: nat): nat {
    left * ID_LIMIT + right
  }

  /** The 63-bit slot of a merge: `(key << 21) | merged`. */
  function PackSlot(key: nat, merged: nat): nat {
    key * ID_LIMIT + merged
  }

  function SlotKey(packed: nat): nat {
    packed / ID_LIMIT
  }

  function SlotMerged(packed: nat): nat {
    packed % ID_LIMIT
  }

  /** Keys of small ids are distinct, and unpack to their pair. */
  lemma PackKeyInjective(a: nat, b: nat, c: nat, d: nat)
    requires a < ID_LIMIT && b < ID_LIMIT && c < ID_LIMIT && d < ID_LIMIT
    ensures PackKey(a, b) == PackKey(c, d) <==> a == c && b == d
    ensures SlotKey(PackKey(a, b)) == a && SlotMerged(PackKey(a, b)) == b
  {
  }

  /** A packed slot gives back key and id, and is never the empty marker. */
  lemma PackSlotExact(a: nat, b: nat, merged: nat)
    requires a < ID_LIMIT && b < ID_LIMIT && merged < ID_LIMIT
    ensures SlotKey(PackSlot(PackKey(a, b), merged)) == PackKey(a, b)
    ensures SlotMerged(PackSlot(PackKey(a, b), merged)) == merged
    ensures PackSlot(PackKey(a, b), merged) < U64_MAX
    ensures SlotKey(U64_MAX) != PackKey(a, b)
  {
  }

  function AsCell(packed: nat): Cell<nat, nat> {
    if packed == U64_MAX then Free else Cell(SlotKey(packed), SlotMerged(packed))
  }

  function Cells(slots: seq<nat>): (cells: seq<Cell<nat, nat>>)
    ensures |cells| == |slots| && forall p :: 0 <= p < |slots| ==> cells[p] == AsCell(slots[p])
  {
    seq(|slots|, p requires 0 <= p < |slots| => AsCell(slots[p]))
  }

  /** The home of a key under an arbitrary hash scaled to the ring. */
  function Home(hash: nat -> nat, n: nat): nat -> nat
    requires n > 0
  {
    k => hash(k) % n
  }

  /** The packed keys of the merges. */
  ghost predicate KeyMap(merges: map<Pair, nat>, packed: map<nat, nat>) {
    && (forall p :: p in merges ==> p.0 < ID_LIMIT && p.1 < ID_LIMIT && merges[p] < ID_LIMIT)
    && (forall a: nat, b: nat :: a < ID_LIMIT && b < ID_LIMIT ==>
          ((a, b) in merges <==> PackKey(a, b) in packed)
          && ((a, b) in merges ==> packed[PackKey(a, b)] == merges[(a, b)]))
  }

  /** The flat level holds exactly the packed merges, none far from its home. */
  ghost predicate Flat(slots: seq<nat>, hash: nat -> nat, packed: map<nat, nat>) {
    && |slots| > 0 && Table(Cells(slots), Home(hash, |slots|), packed)
    && forall p :: 0 <= p < |slots| && slots[p] != U64_MAX ==>
         Dist(|slots|, Home(hash, |slots|)(SlotKey(slots[p])), p) <= MAX_DISPLACEMENT
  }

  /** What a lookup answers: the merged id, or `U32_MAX`. */
  function RankIn(merges: map<Pair, nat>, a: nat, b: nat): nat {
    if (a, b) in merges then merges[(a, b)] else U32_MAX
  }

  function GridIndex(a: nat, b: nat): (i: nat)
    requires a < DENSE && b < DENSE
    ensures i < DENSE * DENSE
  {
    a * DENSE + b
  }

  /** The grid answers every pair of small ids. */
  ghost predicate Grid(dense: seq<nat>, merges: map<Pair, nat>) {
    && |dense| == DENSE * DENSE
    && forall a: nat, b: nat :: a < DENSE && b < DENSE ==> dense[GridIndex(a, b)] == RankIn(merges, a, b)
  }

  lemma KeyMapInsert(merges: map<Pair, nat>, packed: map<nat, nat>, a: nat, b: nat, merged: nat)
    requires KeyMap(merges, packed) && a < ID_LIMIT && b < ID_LIMIT && merged < ID_LIMIT
    ensures KeyMap(merges[(a, b) := merged], packed[PackKey(a, b) := merged])
  {
    forall c: nat, d: nat | c < ID_LIMIT && d < ID_LIMIT
      ensures PackKey(a, b) == PackKey(c, d) <==> a == c && b == d
    {
      PackKeyInjective(a, b, c, d);
    }
  }

  lemma GridInsert(dense: seq<nat>, merges: map<Pair, nat>, a: nat, b: nat, merged: nat)
    requires Grid(dense, merges)
    ensures a < DENSE && b < DENSE ==> Grid(dense[GridIndex(a, b) := merged], merges[(a, b) := merged])
    ensures !(a < DENSE && b < DENSE) ==> Grid(dense, merges[(a, b) := merged])
  {
  }

  lemma FlatFacts(slots: seq<nat>, hash: nat -> nat, packed: map<nat, nat>, p: nat)
    requires Flat(slots, hash, packed) && p < |slots| && slots[p] != U64_MAX
    ensures SlotKey(slots[p]) in packed && packed[SlotKey(slots[p])] == SlotMerged(slots[p])
  {
    assert Cells(slots)[p] == AsCell(slots[p]);
  }

  lemma FreeProvesAbsent(slots: seq<nat>, hash: nat -> nat, packed: map<nat, nat>, key: nat, p: nat)
    requires Flat(slots, hash, packed) && p < |slots| && slots[p] == U64_MAX
    requires var h := Home(hash, |slots|)(key); Passed(Cells(slots), h, Dist(|slots|, h, p), key)
    ensures key !in packed
  {
    FreeMeansAbsent(Cells(slots), Home(hash, |slots|), packed, key, p);
  }

  lemma StoreSlot(slots: seq<nat>, hash: nat -> nat, packed: map<nat, nat>, a: nat, b: nat, merged: nat, p: nat)
    requires Flat(slots, hash, packed) && p < |slots| && slots[p] == U64_MAX
    requires a < ID_LIMIT && b < ID_LIMIT && merged < ID_LIMIT && PackKey(a, b) !in packed
    requires var h := Home(hash, |slots|)(PackKey(a, b));
             Passed(Cells(slots), h, Dist(|slots|, h, p), PackKey(a, b)) && Dist(|slots|, h, p) <= MAX_DISPLACEMENT
    ensures Flat(slots[p := PackSlot(PackKey(a, b), merged)], hash, packed[PackKey(a, b) := merged])
    ensures Occupied(Cells(slots[p := PackSlot(PackKey(a, b), merged)])) == Occupied(Cells(slots)) + 1
  {
    var key := PackKey(a, b);
    PackSlotExact(a, b, merged);
    var after := slots[p := PackSlot(key, merged)];
    assert Cells(after) == Cells(slots)[p := Cell(key, merged)];
    StoreKeeps(Cells(slots), Home(hash, |slots|), packed, key, merged, p);
    OccupiedUpdate(Cells(slots), p, Cell(key, merged));
  }

  function GridAfter(dense: seq<nat>, a: nat, b: nat, merged: nat): seq<nat>
    requires |dense| == DENSE * DENSE
  {
    if a < DENSE && b < DENSE then dense[GridIndex(a, b) := merged] else dense
  }

  lemma GridSize(dense: seq<nat>, merges: map<Pair, nat>)
    requires Grid(dense, merges)
    ensures |dense| == DENSE * DENSE
  {
  }

  lemma AfterStore(slots: seq<nat>, dense: seq<nat>, hash: nat -> nat, merges: map<Pair, nat>, packed: map<nat, nat>,
                   a: nat, b: nat, merged: nat, p: nat)
    requires Flat(slots, hash, packed) && KeyMap(merges, packed) && Grid(dense, merges)
    requires a < ID_LIMIT && b < ID_LIMIT && merged < ID_LIMIT && (a, b) !in merges
    requires p < |slots| && slots[p] == U64_MAX
    requires var h := Home(hash, |slots|)(PackKey(a, b));
             Passed(Cells(slots), h, Dist(|slots|, h, p), PackKey(a, b)) && Dist(|slots|, h, p) <= MAX_DISPLACEMENT
    ensures Flat(slots[p := PackSlot(PackKey(a, b), merged)], hash, packed[PackKey(a, b) := merged])
    ensures Occupied(Cells(slots[p := PackSlot(PackKey(a, b), merged)])) == Occupied(Cells(slots)) + 1
    ensures KeyMap(merges[(a, b) := merged], packed[PackKey(a, b) := merged])
    ensures Grid(GridAfter(dense, a, b, merged), merges[(a, b) := merged])
  {
    hide Occupied;
    AbsentKey(merges, packed, a, b);
    StoreSlot(slots, hash, packed, a, b, merged, p);
    hide Flat, Cells;
    KeyMapInsert(merges, packed, a, b, merged);
    GridInsert(dense, merges, a, b, merged);
  }

  // ------------------------------------------------------------------
  // What a lookup answers, whatever the slots hold
  // ------------------------------------------------------------------

  /** The probe from `t` steps after `home` on: the first slot with the key, unless an empty one comes first. */
  function Probe(slots: seq<nat>, home: nat, t: nat, key: nat): nat
    requires home < |slots|
    decreases |slots| - t
  {
    if t >= |slots| then U32_MAX
    else
      var found := slots[At(|slots|, home, t)];
      if SlotKey(found) == key then SlotMerged(found)
      else if found == U64_MAX then U32_MAX
      else Probe(slots, home, t + 1, key)
  }

  function Answer(slots: seq<nat>, dense: seq<nat>, hash: nat -> nat, a: nat, b: nat): nat
    requires |slots| > 0 && |dense| == DENSE * DENSE
  {
    if a < DENSE && b < DENSE then dense[GridIndex(a, b)]
    else Probe(slots, Home(hash, |slots|)(PackKey(a, b)), 0, PackKey(a, b))
  }

  ghost predicate HasFree(slots: seq<nat>) {
    exists p :: 0 <= p < |slots| && slots[p] == U64_MAX
  }

  /** Fewer merges than slots leave one free. */
  lemma SomeFree(slots: seq<nat>)
    requires Occupied(Cells(slots)) < |slots|
    ensures HasFree(slots)
  {
    var p := FreeCellExists(Cells(slots));
    assert slots[p] == U64_MAX;
  }

  /** A slot reached over occupied slots of other keys gives the answer. */
  lemma {:induction false} ProbeFinds(slots: seq<nat>, home: nat, t: nat, key: nat, p: nat)
    requires home < |slots| && p < |slots| && t <= Dist(|slots|, home, p) && SlotKey(slots[p]) == key
    requires forall q :: 0 <= q < |slots| && Dist(|slots|, home, q) < Dist(|slots|, home, p) ==>
               slots[q] != U64_MAX && SlotKey(slots[q]) != key
    ensures Probe(slots, home, t, key) == SlotMerged(slots[p])
    decreases |slots| - t
  {
    hide SlotKey, SlotMerged;
    AtDist(|slots|, home, p);
    if t < Dist(|slots|, home, p) {
      ProbeFinds(slots, home, t + 1, key, p);
    }
  }

  lemma {:induction false} ProbeMisses(slots: seq<nat>, home: nat, t: nat, key: nat)
    requires home < |slots| && forall p :: 0 <= p < |slots| ==> SlotKey(slots[p]) != key
    ensures Probe(slots, home, t, key) == U32_MAX
    decreases |slots| - t
  {
    hide SlotKey, SlotMerged;
    if t < |slots| {
      ProbeMisses(slots, home, t + 1, key);
    }
  }

  /** A table answers every pair of in-range ids by its merges. */
  lemma AnswerIsRank(slots: seq<nat>, dense: seq<nat>, hash: nat -> nat, merges: map<Pair, nat>, packed: map<nat, nat>,
                     a: nat, b: nat)
    requires Flat(slots, hash, packed) && KeyMap(merges, packed) && Grid(dense, merges)
    requires a < ID_LIMIT && b < ID_LIMIT
    ensures Answer(slots, dense, hash, a, b) == RankIn(merges, a, b)
  {
    hide SlotKey, SlotMerged, PackKey;
    if !(a < DENSE && b < DENSE) {
      var key := PackKey(a, b);
      var home := Home(hash, |slots|)(key);
      if (a, b) in merges {
        var p := ProbeMeets(slots, hash, packed, key);
        ProbeFinds(slots, home, 0, key, p);
      } else {
        OtherKeys(slots, hash, packed, key, a, b);
        ProbeMisses(slots, home, 0, key);
      }
    }
  }

  lemma OtherKeys(slots: seq<nat>, hash: nat -> nat, packed: map<nat, nat>, key: nat, a: nat, b: nat)
    requires Flat(slots, hash, packed) && key !in packed && key == PackKey(a, b) && a < ID_LIMIT && b < ID_LIMIT
    ensures forall p :: 0 <= p < |slots| ==> SlotKey(slots[p]) != key
  {
    PackSlotExact(a, b, 0);
    hide SlotKey, SlotMerged, PackKey, Flat;
    forall p | 0 <= p < |slots|
      ensures SlotKey(slots[p]) != key
    {
      if slots[p] != U64_MAX {
        FlatFacts(slots, hash, packed, p);
      }
    }
  }

  lemma ProbeMeets(slots: seq<nat>, hash: nat -> nat, packed: map<nat, nat>, key: nat) returns (p: nat)
    requires Flat(slots, hash, packed) && key in packed
    ensures p < |slots| && SlotKey(slots[p]) == key && SlotMerged(slots[p]) == packed[key]
    ensures var home := Home(hash, |slots|)(key);
            forall q :: 0 <= q < |slots| && Dist(|slots|, home, q) < Dist(|slots|, home, p) ==>
              slots[q] != U64_MAX && SlotKey(slots[q]) != key
  {
    hide SlotKey, SlotMerged;
    var cells := Cells(slots);
    p :| 0 <= p < |cells| && cells[p] == Cell(key, packed[key]);
    var home := Home(hash, |slots|)(key);
    forall q | 0 <= q < |slots| && Dist(|slots|, home, q) < Dist(|slots|, home, p)
      ensures slots[q] != U64_MAX && SlotKey(slots[q]) != key
    {
      assert cells[p].Cell? && cells[p].key == key;
      assert cells[q].Cell?;
    }
  }

  // ------------------------------------------------------------------
  // When an insertion finds room
  // ------------------------------------------------------------------

  /** An empty slot within the displacement limit of `home`. */
  ghost predicate FreeNear(slots: seq<nat>, home: nat)
    requires home < |slots|
  {
    exists p :: 0 <= p < |slots| && slots[p] == U64_MAX && Dist(|slots|, home, p) <= MAX_DISPLACEMENT
  }

  /** The first `t` cells from `h` are occupied: there are that many occupied cells. */
  lemma {:induction false} RunIsCounted(cells: seq<Cell<nat, nat>>, h: nat, t: nat)
    requires h + t <= |cells| && forall p :: h <= p < h + t ==> cells[p].Cell?
    ensures Occupied(cells[h..]) >= t
    decreases t
  {
    if t > 0 {
      OccupiedDrop(cells, h);
      RunIsCounted(cells, h + 1, t - 1);
    }
  }

  lemma {:induction false} OccupiedSplit(cells: seq<Cell<nat, nat>>, h: nat)
    requires h <= |cells|
    ensures Occupied(cells) == Occupied(cells[..h]) + Occupied(cells[h..])
    decreases h
  {
    if h == 0 {
      assert cells[..0] == [] && cells[0..] == cells;
    } else {
      OccupiedSplit(cells[1..], h - 1);
      assert cells[1..][..h - 1] == cells[..h][1..] && cells[1..][h - 1..] == cells[h..];
    }
  }

  lemma IsFreeNear(slots: seq<nat>, home: nat, p: nat)
    requires home < |slots| && p < |slots| && slots[p] == U64_MAX && Dist(|slots|, home, p) <= MAX_DISPLACEMENT
    ensures FreeNear(slots, home)
  {
  }

  /** A run of occupied cells around the ring counts its cells. */
  lemma RingRunIsCounted(cells: seq<Cell<nat, nat>>, home: nat, d: nat)
    requires home < |cells| && d <= |cells|
    requires forall p :: 0 <= p < |cells| && Dist(|cells|, home, p) < d ==> cells[p].Cell?
    ensures Occupied(cells) >= d
  {
    OccupiedSplit(cells, home);
    if home + d <= |cells| {
      RunIsCounted(cells, home, d);
    } else {
      RunIsCounted(cells, home, |cells| - home);
      RunIsCounted(cells[..home], 0, home + d - |cells|);
      assert cells[..home][0..] == cells[..home];
    }
  }

  /** With few occupied slots every home has an empty slot near. */
  lemma FewLeaveRoom(slots: seq<nat>, home: nat)
    requires home < |slots| && Occupied(Cells(slots)) < |slots| && Occupied(Cells(slots)) <= MAX_DISPLACEMENT
    ensures FreeNear(slots, home)
  {
    hide Occupied;
    if !FreeNear(slots, home) {
      RingRunIsCounted(Cells(slots), home, if MAX_DISPLACEMENT < |slots| then MAX_DISPLACEMENT + 1 else |slots|);
    }
  }

  /** How a walk for a key ended. */
  datatype Walk = Present | Absent(slot: nat) | TooFar

  lemma PassedLimit(slots: seq<nat>, home: nat, key: nat)
    requires home < |slots| && Passed(Cells(slots), home, MAX_DISPLACEMENT + 1, key)
    ensures !FreeNear(slots, home)
  {
  }

  /** A walk over occupied slots has not come round while a slot is free. */
  lemma FreeAhead(slots: seq<nat>, home: nat, t: nat)
    requires home < |slots| && t < |slots| && HasFree(slots)
    requires forall s :: 0 <= s <= t ==> slots[At(|slots|, home, s)] != U64_MAX
    ensures t + 1 < |slots| && NextOnRing(|slots|, At(|slots|, home, t)) == At(|slots|, home, t + 1)
  {
    var p :| 0 <= p < |slots| && slots[p] == U64_MAX;
    AtDist(|slots|, home, p);
  }

  /** The lookup's probe loop. */
  method ProbeSlots(slots: array<nat>, home: nat, key: nat) returns (r: nat)
    requires home < slots.Length && HasFree(slots[..])
    ensures r == Probe(slots[..], home, 0, key)
  {
    hide SlotKey, SlotMerged;
    var n := slots.Length;
    var slot: nat := home;
    ghost var t: nat := 0;
    while true
      invariant t < n && slot == At(n, home, t)
      invariant Probe(slots[..], home, t, key) == Probe(slots[..], home, 0, key)
      invariant forall s :: 0 <= s < t ==> slots[At(n, home, s)] != U64_MAX
      decreases n - t
    {
      var found := slots[slot];
      if SlotKey(found) == key {
        return SlotMerged(found);
      }
      if found == U64_MAX {
        return U32_MAX;
      }
      FreeAhead(slots[..], home, t);
      slot, t := NextOnRing(n, slot), t + 1;
    }
  }

  class PairRankTable {
    const hash: nat -> nat
    const dense: array<nat>
    const slots: array<nat>
    ghost var merges: map<Pair, nat>
    ghost var packed: map<nat, nat>

    ghost predicate Valid()
      reads this, dense, slots
    {
      && dense != slots
      && KeyMap(merges, packed)
      && Flat(slots[..], hash, packed)
      && Grid(dense[..], merges)
      && Occupied(Cells(slots[..])) == |merges|
      && PowerOfTwo(slots.Length)
    }

    /** Room for `mergeCount` merges at half load. */
    constructor (mergeCount: nat, hash: nat -> nat)
      ensures Valid() && merges == map[] && fresh(slots) && fresh(dense)
      ensures this.hash == hash && slots.Length == SlotsFor(mergeCount)
      ensures forall p :: 0 <= p < slots.Length ==> slots[p] == U64_MAX
      ensures dense.Length == DENSE * DENSE && forall i :: 0 <= i < dense.Length ==> dense[i] == U32_MAX
    {
      this.hash := hash;
      dense := new nat[DENSE * DENSE](_ => U32_MAX);
      slots := new nat[SlotsFor(mergeCount)](_ => U64_MAX);
      merges, packed := map[], map[];
      new;
      MinSlotsIsPower();
      NextIsPower(MaxOne(mergeCount) * 2, MIN_SLOTS);
      AllFree(Cells(slots[..]), Home(hash, slots.Length));
    }

    /**
     The rank of a pair. The probe ends because some slot is free; on a valid table the
     answer is the pair's merge.
     */
    method Rank(a: nat, b: nat) returns (r: nat)
      requires a < ID_LIMIT && b < ID_LIMIT
      requires slots.Length > 0 && dense.Length == DENSE * DENSE && HasFree(slots[..])
      ensures r == Answer(slots[..], dense[..], hash, a, b)
      ensures Valid() ==> r == RankIn(merges, a, b)
    {
      if Valid() {
        AnswerIsRank(slots[..], dense[..], hash, merges, packed, a, b);
      }
      hide Flat, Occupied, Grid, KeyMap, Cells, PackKey, PowerOfTwo, Probe;
      if a < DENSE && b < DENSE {
        return dense[GridIndex(a, b)];
      }
      r := ProbeSlots(slots, Home(hash, slots.Length)(PackKey(a, b)), PackKey(a, b));
    }

    /** Probe for a pair, giving up after the limit: present, absent with a near free slot, or too far. */
    method Seek(a: nat, b: nat) returns (r: Walk)
      requires Valid() && a < ID_LIMIT && b < ID_LIMIT && |merges| < slots.Length
      ensures r.Present? ==> (a, b) in merges
      ensures r.Absent? ==> r.slot < slots.Length && slots[r.slot] == U64_MAX && (a, b) !in merges
      ensures r.Absent? ==> var h := Home(hash, slots.Length)(PackKey(a, b));
                            Passed(Cells(slots[..]), h, Dist(slots.Length, h, r.slot), PackKey(a, b))
                            && Dist(slots.Length, h, r.slot) <= MAX_DISPLACEMENT
      ensures r.TooFar? ==> !FreeNear(slots[..], Home(hash, slots.Length)(PackKey(a, b)))
    {
      hide Flat, Occupied, Grid;
      var n, key := slots.Length, PackKey(a, b);
      var home: nat := Home(hash, n)(key);
      var slot: nat, displacement: nat := home, 0;
      PackSlotExact(a, b, 0);
      while true
        invariant slot < n && displacement == Dist(n, home, slot) <= MAX_DISPLACEMENT
        invariant Passed(Cells(slots[..]), home, displacement, key)
        decreases n - displacement
      {
        var found := slots[slot];
        if found == U64_MAX {
          FreeProvesAbsent(slots[..], hash, packed, key, slot);
          return Absent(slot);
        }
        if SlotKey(found) == key {
          FlatFacts(slots[..], hash, packed, slot);
          return Present;
        }
        StepPast(Cells(slots[..]), home, slot, key);
        slot := NextOnRing(n, slot);
        displacement := displacement + 1;
        if displacement > MAX_DISPLACEMENT {
          PassedLimit(slots[..], home, key);
          return TooFar;
        }
      }
    }

    /** Write an absent pair into the slot its probe ended at, and into the grid. */
    method Store(left: nat, right: nat, merged: nat, slot: nat)
      requires Valid() && left < ID_LIMIT && right < ID_LIMIT && merged < ID_LIMIT && (left, right) !in merges
      requires slot < slots.Length && slots[slot] == U64_MAX
      requires var h := Home(hash, slots.Length)(PackKey(left, right));
               Passed(Cells(slots[..]), h, Dist(slots.Length, h, slot), PackKey(left, right))
               && Dist(slots.Length, h, slot) <= MAX_DISPLACEMENT
      modifies this, slots, dense
      ensures Valid() && merges == old(merges)[(left, right) := merged]
      ensures slots[..] == old(slots[..])[slot := PackSlot(PackKey(left, right), merged)]
    {
      hide Flat, Occupied, Grid, KeyMap, PowerOfTwo, Cells, PackKey, PackSlot;
      GridSize(dense[..], merges);
      ghost var newSlots := slots[..][slot := PackSlot(PackKey(left, right), merged)];
      ghost var newDense := GridAfter(dense[..], left, right, merged);
      AfterStore(slots[..], dense[..], hash, merges, packed, left, right, merged, slot);
      slots[slot] := PackSlot(PackKey(left, right), merged);
      if left < DENSE && right < DENSE {
        dense[GridIndex(left, right)] := merged;
      }
      assert slots[..] == newSlots && dense[..] == newDense;
      merges, packed := merges[(left, right) := merged], packed[PackKey(left, right) := merged];
    }

    /** Add a merge; refuse exactly wide ids, known pairs and long probes, changing nothing. */
    method Insert(left: nat, right: nat, merged: nat) returns (ok: bool)
      requires Valid() && |merges| < slots.Length
      modifies this, slots, dense
      ensures Valid()
      ensures ok <==> left < ID_LIMIT && right < ID_LIMIT && merged < ID_LIMIT && (left, right) !in old(merges)
                      && FreeNear(old(slots[..]), Home(hash, slots.Length)(PackKey(left, right)))
      ensures ok ==> merges == old(merges)[(left, right) := merged]
      ensures !ok ==> merges == old(merges) && slots[..] == old(slots[..]) && dense[..] == old(dense[..])
    {
      if left >= ID_LIMIT || right >= ID_LIMIT || merged >= ID_LIMIT {
        return false;
      }
      var walk := Seek(left, right);
      if !walk.Absent? {
        return false;
      }
      IsFreeNear(slots[..], Home(hash, slots.Length)(PackKey(left, right)), walk.slot);
      Store(left, right, merged, walk.slot);
      ok := true;
    }

    /**
     Build the table of a whole merge map. It is refused for wide ids, or when a probe gets
     longer than the limit; maps of up to 65 merges never are for the latter.
     */
    static method Build(all: map<Pair, nat>, vocabLen: nat, hash: nat -> nat) returns (r: Option<PairRankTable>)
      ensures r.Some? ==> fresh(r.value) && r.value.Valid() && r.value.merges == all && |all| < r.value.slots.Length
      ensures r.Some? ==> vocabLen <= ID_LIMIT && r.value.slots.Length == SlotsFor(|all|)
      ensures r.Some? ==> IdsPack(all)
      ensures r.None? && vocabLen <= ID_LIMIT && IdsPack(all) ==> |all| > MAX_DISPLACEMENT + 1
      ensures r.None? && vocabLen <= ID_LIMIT && IdsPack(all) ==> exists slots, p :: Crowded(all, hash, slots, p)
    {
      if vocabLen > ID_LIMIT || exists p :: p in all && (p.0 >= ID_LIMIT || p.1 >= ID_LIMIT || all[p] >= ID_LIMIT) {
        return None;
      }
      hide Flat, Grid, KeyMap, Occupied, PowerOfTwo, Cells, Crowded, SlotsFor;
      var table := new PairRankTable(|all|, hash);
      var ok := InsertAll(table, all);
      r := if ok then Some(table) else None;
    }
  }

  /** Insert every merge of the map into an empty table, in any order. */
  method InsertAll(table: PairRankTable, all: map<Pair, nat>) returns (ok: bool)
    requires table.Valid() && table.merges == map[] && IdsPack(all) && table.slots.Length == SlotsFor(|all|)
    modifies table, table.slots, table.dense
    ensures ok ==> table.Valid() && table.merges == all
    ensures !ok ==> |all| > MAX_DISPLACEMENT + 1 && exists p :: Crowded(all, table.hash, table.slots[..], p)
  {
    hide PairRankTable.Valid, IdsPack, Crowded, SlotsFor;
    var todo := all.Keys;
    WorkStarts(all);
    hide WorkedOff;
    while todo != {}
      invariant WorkedOff(all, todo, table.merges) && table.Valid()
      decreases |todo|
    {
      var p :| p in todo;
      WorkProceeds(all, todo, table.merges, p);
      ok := AddNext(table, all, todo, p);
      if !ok {
        return;
      }
      todo := todo - {p};
    }
    WorkEnds(all, table.merges);
    ok := true;
  }

  /** All merges of `all` except those in `todo` are in `added`. */
  ghost predicate WorkedOff(all: map<Pair, nat>, todo: set<Pair>, added: map<Pair, nat>) {
    todo <= all.Keys && added.Keys == all.Keys - todo && forall p :: p in added ==> added[p] == all[p]
  }

  lemma WorkStarts(all: map<Pair, nat>)
    ensures WorkedOff(all, all.Keys, map[])
  {
  }

  lemma WorkEnds(all: map<Pair, nat>, added: map<Pair, nat>)
    requires WorkedOff(all, {}, added)
    ensures added == all
  {
  }

  lemma WorkProceeds(all: map<Pair, nat>, todo: set<Pair>, added: map<Pair, nat>, p: Pair)
    requires WorkedOff(all, todo, added) && p in todo
    ensures p in all && p !in added && |added| < |all|
    ensures WorkedOff(all, todo - {p}, added[p := all[p]])
  {
    assert added.Keys <= all.Keys - {p};
    CardinalityMonotone(added.Keys, all.Keys - {p});
    assert |added| == |added.Keys| && |all| == |all.Keys|;
  }

  /** Every id of the merges packs. */
  ghost predicate IdsPack(all: map<Pair, nat>) {
    forall p :: p in all ==> p.0 < ID_LIMIT && p.1 < ID_LIMIT && all[p] < ID_LIMIT
  }

  /** Slots that hold some of the merges, and leave no room near the home of another one. */
  ghost predicate Crowded(all: map<Pair, nat>, hash: nat -> nat, slots: seq<nat>, p: Pair) {
    && |slots| == SlotsFor(|all|) && p in all && !FreeNear(slots, Home(hash, |slots|)(PackKey(p.0, p.1)))
    && exists merges, packed :: HoldsSome(all, hash, slots, merges, packed) && p !in merges
  }

  /** The slots hold some merges of `all`. */
  ghost predicate HoldsSome(all: map<Pair, nat>, hash: nat -> nat, slots: seq<nat>, merges: map<Pair, nat>,
                            packed: map<nat, nat>) {
    && Flat(slots, hash, packed) && KeyMap(merges, packed)
    && forall q :: q in merges ==> q in all && all[q] == merges[q]
  }

  lemma IsCrowded(all: map<Pair, nat>, todo: set<Pair>, table: PairRankTable, p: Pair)
    requires table.Valid() && WorkedOff(all, todo, table.merges) && p in todo
    requires table.slots.Length == SlotsFor(|all|)
    requires !FreeNear(table.slots[..], Home(table.hash, table.slots.Length)(PackKey(p.0, p.1)))
    ensures Crowded(all, table.hash, table.slots[..], p)
  {
    hide Flat, KeyMap, FreeNear;
    var slots := table.slots[..];
    assert HoldsSome(all, table.hash, slots, table.merges, table.packed) && p !in table.merges;
    assert |slots| == SlotsFor(|all|) && p in all;
    assert !FreeNear(slots, Home(table.hash, |slots|)(PackKey(p.0, p.1)));
  }

  /** Insert one merge of a map that is being worked off. */
  method AddNext(table: PairRankTable, all: map<Pair, nat>, ghost todo: set<Pair>, p: Pair) returns (ok: bool)
    requires table.Valid() && p in todo && WorkedOff(all, todo, table.merges) && IdsPack(all)
    requires p in all && table.slots.Length == SlotsFor(|all|)
    modifies table, table.slots, table.dense
    ensures ok ==> table.Valid() && WorkedOff(all, todo - {p}, table.merges)
    ensures !ok ==> |all| > MAX_DISPLACEMENT + 1 && Crowded(all, table.hash, table.slots[..], p)
  {
    hide Flat, Grid, KeyMap, Occupied, PowerOfTwo, Cells, WorkedOff, FreeNear, Crowded;
    WorkProceeds(all, todo, table.merges, p);
    ghost var was, count := table.slots[..], |table.merges|;
    var home := Home(table.hash, table.slots.Length)(PackKey(p.0, p.1));
    if count <= MAX_DISPLACEMENT {
      FewLeaveRoom(was, home);
    }
    ok := table.Insert(p.0, p.1, all[p]);
    assert ok <==> FreeNear(was, home);
    if !ok {
      IsCrowded(all, todo, table, p);
    }
  }

  lemma {:induction false} CardinalityMonotone(a: set<Pair>, b: set<Pair>)
    requires a <= b
    ensures |a| <= |b|
  {
    if a != {} {
      var x :| x in a;
      CardinalityMonotone(a - {x}, b - {x});
    }
  }

  lemma AbsentKey(merges: map<Pair, nat>, packed: map<nat, nat>, a: nat, b: nat)
    requires KeyMap(merges, packed) && a < ID_LIMIT && b < ID_LIMIT && (a, b) !in merges
    ensures PackKey(a, b) !in packed
  {
  }

  function MaxOne(n: nat): nat {
    if n == 0 then 1 else n
  }

  /** Slots for a planned number of merges at half load, a power of two. */
  function SlotsFor(mergeCount: nat): (n: nat)
    ensures n >= 2 * MaxOne(mergeCount) && n >= MIN_SLOTS
  {
    NextPowerOfTwo(MaxOne(mergeCount) * 2, MIN_SLOTS)
  }

  lemma MinSlotsIsPower()
    ensures PowerOfTwo(MIN_SLOTS)
  {
    assert PowerOfTwo(16);
  }
}

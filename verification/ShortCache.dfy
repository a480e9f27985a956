/**
 The cache for short pretokens: packed keys, linear probing by aligned pairs of
 slots, doubling at three-quarters load. Key 0 marks an empty slot.
 */
module ShortCache {
  import opened Prelude
  import opened Probing

  const EMPTY_KEY: nat := 0

  datatype Entry = Entry(key: nat, val: nat, ext: nat)

  type Value = (nat, nat)

  function AsCell(e: Entry): Cell<nat, Value> {
    if e.key == EMPTY_KEY then Free else Cell(e.key, (e.val, e.ext))
  }

  function Cells(slots: seq<Entry>): (cells: seq<Cell<nat, Value>>)
    ensures |cells| == |slots| && forall p :: 0 <= p < |slots| ==> cells[p] == AsCell(slots[p])
  {
    seq(|slots|, p requires 0 <= p < |slots| => AsCell(slots[p]))
  }

  /** The even slot a hash's pair starts at: `hash & mask & !1`. */
  function HomePair(hash: nat, n: nat): (h: nat)
    requires n > 0 && n % 2 == 0
    ensures h + 1 < n && h % 2 == 0
  {
    hash % n / 2 * 2
  }

  function Home(hash: nat -> nat, n: nat): nat -> nat
    requires n > 0 && n % 2 == 0
  {
    k => HomePair(hash(k), n)
  }

  /** A ring of slot pairs that represents `m`. */
  ghost predicate Ring(slots: seq<Entry>, hash: nat -> nat, m: map<nat, Value>) {
    |slots| > 0 && |slots| % 2 == 0 && EMPTY_KEY !in m && Table(Cells(slots), Home(hash, |slots|), m)
  }

  /** `p` is the first free slot of the walk from `h`. */
  ghost predicate FirstFree(slots: seq<Entry>, h: nat, p: nat)
    requires h < |slots|
  {
    && p < |slots| && slots[p].key == EMPTY_KEY
    && forall q :: 0 <= q < |slots| && Dist(|slots|, h, q) < Dist(|slots|, h, p) ==> slots[q].key != EMPTY_KEY
  }

  /** The first free slot is unique, so two walks from one home report the same slot. */
  lemma FirstFreeUnique(slots: seq<Entry>, h: nat, p: nat, q: nat)
    requires h < |slots| && FirstFree(slots, h, p) && FirstFree(slots, h, q)
    ensures p == q
  {
    AtDist(|slots|, h, p);
    AtDist(|slots|, h, q);
  }

  /** The pair after `p`: `(p + 2) & mask`. */
  function NextPair(n: nat, p: nat): (q: nat)
    requires p + 1 < n && n % 2 == 0 && p % 2 == 0
    ensures q + 1 < n && q % 2 == 0
  {
    if p + 2 == n then 0 else p + 2
  }

  /** The slots of the walk before `p` are occupied by other keys than `k`. */
  ghost predicate PassedBy(slots: seq<Entry>, h: nat, p: nat, k: nat)
    requires h < |slots| && p < |slots|
  {
    Passed(Cells(slots), h, Dist(|slots|, h, p), k)
  }

  /** Passing both slots of a pair moves the walk one pair on. */
  lemma StepPair(slots: seq<Entry>, h: nat, p: nat, k: nat)
    requires |slots| % 2 == 0 && h + 1 < |slots| && h % 2 == 0 && p + 1 < |slots| && p % 2 == 0
    requires Occupied(Cells(slots)) < |slots| && PassedBy(slots, h, p, k)
    requires slots[p].key != EMPTY_KEY && slots[p].key != k && slots[p + 1].key != EMPTY_KEY && slots[p + 1].key != k
    ensures PassedBy(slots, h, NextPair(|slots|, p), k)
    ensures Dist(|slots|, h, NextPair(|slots|, p)) == Dist(|slots|, h, p) + 2
  {
    StepPast(Cells(slots), h, p, k);
    StepPast(Cells(slots), h, p + 1, k);
  }

  lemma SecondOfPair(slots: seq<Entry>, h: nat, p: nat, k: nat)
    requires |slots| % 2 == 0 && h + 1 < |slots| && h % 2 == 0 && p + 1 < |slots| && p % 2 == 0
    requires Occupied(Cells(slots)) < |slots| && PassedBy(slots, h, p, k)
    requires slots[p].key != EMPTY_KEY && slots[p].key != k
    ensures PassedBy(slots, h, p + 1, k)
  {
    StepPast(Cells(slots), h, p, k);
  }

  lemma PassedThenFree(slots: seq<Entry>, h: nat, p: nat, k: nat)
    requires h < |slots| && p < |slots| && PassedBy(slots, h, p, k) && slots[p].key == EMPTY_KEY
    ensures FirstFree(slots, h, p)
  {
    forall q | 0 <= q < |slots| && Dist(|slots|, h, q) < Dist(|slots|, h, p)
      ensures slots[q].key != EMPTY_KEY
    {
      assert Cells(slots)[q].Cell?;
    }
  }

  lemma StoredValue(slots: seq<Entry>, hash: nat -> nat, m: map<nat, Value>, p: nat)
    requires Ring(slots, hash, m) && p < |slots| && slots[p].key != EMPTY_KEY
    ensures slots[p].key in m && m[slots[p].key] == (slots[p].val, slots[p].ext)
  {
    assert Cells(slots)[p] == AsCell(slots[p]);
  }

  /** A free slot at the end of a key's walk proves the key absent. */
  lemma FreeProvesAbsent(slots: seq<Entry>, hash: nat -> nat, m: map<nat, Value>, key: nat, p: nat)
    requires Ring(slots, hash, m) && p < |slots| && slots[p].key == EMPTY_KEY
    requires PassedBy(slots, HomePair(hash(key), |slots|), p, key)
    ensures key !in m
  {
    FreeMeansAbsent(Cells(slots), Home(hash, |slots|), m, key, p);
  }

  /** Storing an absent key in the first free slot of its walk. */
  lemma StoreEntry(slots: seq<Entry>, hash: nat -> nat, m: map<nat, Value>, e: Entry, p: nat)
    requires Ring(slots, hash, m) && e.key != EMPTY_KEY && e.key !in m
    requires FirstFree(slots, HomePair(hash(e.key), |slots|), p)
    ensures Ring(slots[p := e], hash, m[e.key := (e.val, e.ext)])
    ensures Occupied(Cells(slots[p := e])) == Occupied(Cells(slots)) + 1
  {
    var cells := Cells(slots);
    var h := HomePair(hash(e.key), |slots|);
    assert Cells(slots[p := e]) == cells[p := AsCell(e)];
    forall q | 0 <= q < |cells| && Dist(|cells|, h, q) < Dist(|cells|, h, p)
      ensures cells[q].Cell? && cells[q].key != e.key
    {
      StoredValue(slots, hash, m, q);
    }
    StoreKeeps(cells, Home(hash, |slots|), m, e.key, (e.val, e.ext), p);
    OccupiedUpdate(cells, p, AsCell(e));
  }

  lemma OverwriteEntry(slots: seq<Entry>, hash: nat -> nat, m: map<nat, Value>, e: Entry, p: nat)
    requires Ring(slots, hash, m) && p < |slots| && e.key != EMPTY_KEY && slots[p].key == e.key
    ensures Ring(slots[p := e], hash, m[e.key := (e.val, e.ext)]) && e.key in m
    ensures Occupied(Cells(slots[p := e])) == Occupied(Cells(slots))
  {
    var cells := Cells(slots);
    assert cells[p] == AsCell(slots[p]);
    assert Cells(slots[p := e]) == cells[p := AsCell(e)];
    OverwriteKeeps(cells, Home(hash, |slots|), m, (e.val, e.ext), p);
    OccupiedUpdate(cells, p, AsCell(e));
  }

  /** Walk by pairs to the first free slot. */
  method WalkToFree(slots: seq<Entry>, h: nat) returns (p: nat)
    requires |slots| % 2 == 0 && h + 1 < |slots| && h % 2 == 0 && Occupied(Cells(slots)) < |slots|
    ensures FirstFree(slots, h, p)
  {
    hide Occupied;
    p := h;
    while true
      invariant p + 1 < |slots| && p % 2 == 0 && PassedBy(slots, h, p, EMPTY_KEY)
      decreases |slots| - Dist(|slots|, h, p)
    {
      if slots[p].key == EMPTY_KEY {
        PassedThenFree(slots, h, p, EMPTY_KEY);
        return;
      }
      if slots[p + 1].key == EMPTY_KEY {
        SecondOfPair(slots, h, p, EMPTY_KEY);
        PassedThenFree(slots, h, p + 1, EMPTY_KEY);
        p := p + 1;
        return;
      }
      StepPair(slots, h, p, EMPTY_KEY);
      p := NextPair(|slots|, p);
    }
  }

  /** Where a lookup ended. */
  datatype Lookup = Hit(slot: nat) | Miss(slot: nat)

  /** Walk by pairs until the key or a free slot turns up. */
  method WalkToKey(slots: seq<Entry>, hash: nat -> nat, ghost m: map<nat, Value>, key: nat, h: nat) returns (r: Lookup)
    requires Ring(slots, hash, m) && Occupied(Cells(slots)) < |slots|
    requires key != EMPTY_KEY && h == HomePair(hash(key), |slots|)
    ensures r.slot < |slots|
    ensures r.Hit? ==> slots[r.slot].key == key && key in m && m[key] == (slots[r.slot].val, slots[r.slot].ext)
    ensures r.Miss? ==> key !in m && FirstFree(slots, h, r.slot)
  {
    RingShape(slots, hash, m);
    hide Ring, Occupied;
    var p: nat := h;
    while true
      invariant p + 1 < |slots| && p % 2 == 0 && PassedBy(slots, h, p, key)
      decreases |slots| - Dist(|slots|, h, p)
    {
      if slots[p].key == key {
        StoredValue(slots, hash, m, p);
        return Hit(p);
      }
      if slots[p + 1].key == key {
        StoredValue(slots, hash, m, p + 1);
        return Hit(p + 1);
      }
      if slots[p].key == EMPTY_KEY {
        FreeProvesAbsent(slots, hash, m, key, p);
        PassedThenFree(slots, h, p, key);
        return Miss(p);
      }
      if slots[p + 1].key == EMPTY_KEY {
        SecondOfPair(slots, h, p, key);
        FreeProvesAbsent(slots, hash, m, key, p + 1);
        PassedThenFree(slots, h, p + 1, key);
        return Miss(p + 1);
      }
      StepPair(slots, h, p, key);
      p := NextPair(|slots|, p);
    }
  }

  lemma RingShape(slots: seq<Entry>, hash: nat -> nat, m: map<nat, Value>)
    requires Ring(slots, hash, m)
    ensures |slots| > 0 && |slots| % 2 == 0 && EMPTY_KEY !in m
  {
  }

  lemma EmptyRing(slots: seq<Entry>, hash: nat -> nat)
    requires |slots| > 0 && |slots| % 2 == 0 && forall p :: 0 <= p < |slots| ==> slots[p].key == EMPTY_KEY
    ensures Ring(slots, hash, map[]) && Occupied(Cells(slots)) == 0
  {
    AllFree(Cells(slots), Home(hash, |slots|));
  }

  /** The pairs held by the first `i` slots. */
  ghost predicate HoldsPrefix(slots: seq<Entry>, m: map<nat, Value>, i: nat, sub: map<nat, Value>)
    requires i <= |slots|
  {
    && (forall k :: k in sub ==> k in m && sub[k] == m[k])
    && forall p :: 0 <= p < |slots| && slots[p].key != EMPTY_KEY ==> (slots[p].key in sub <==> p < i)
  }

  /** The refill loop after `i` slots: `r` holds exactly their pairs. */
  ghost predicate Refilling(slots: seq<Entry>, hash: nat -> nat, m: map<nat, Value>, i: nat, r: seq<Entry>,
                            sub: map<nat, Value>)
    requires i <= |slots|
  {
    && Ring(r, hash, sub) && HoldsPrefix(slots, m, i, sub)
    && Occupied(Cells(r)) + Occupied(Cells(slots)[i..]) == Occupied(Cells(slots))
  }

  lemma KeysDiffer(slots: seq<Entry>, hash: nat -> nat, m: map<nat, Value>, p: nat, q: nat)
    requires Ring(slots, hash, m) && p < |slots| && q < |slots| && p != q
    requires slots[p].key != EMPTY_KEY && slots[q].key != EMPTY_KEY
    ensures slots[p].key != slots[q].key
  {
    assert Cells(slots)[p] == AsCell(slots[p]) && Cells(slots)[q] == AsCell(slots[q]);
  }

  lemma PrefixGrows(slots: seq<Entry>, hash: nat -> nat, m: map<nat, Value>, i: nat, sub: map<nat, Value>)
    requires Ring(slots, hash, m) && i < |slots| && HoldsPrefix(slots, m, i, sub)
    ensures slots[i].key != EMPTY_KEY ==>
              slots[i].key !in sub
              && HoldsPrefix(slots, m, i + 1, sub[slots[i].key := (slots[i].val, slots[i].ext)])
    ensures slots[i].key == EMPTY_KEY ==> HoldsPrefix(slots, m, i + 1, sub)
  {
    hide Ring;
    if slots[i].key != EMPTY_KEY {
      StoredValue(slots, hash, m, i);
      forall p | 0 <= p < |slots| && p != i && slots[p].key != EMPTY_KEY
        ensures slots[p].key != slots[i].key
      {
        KeysDiffer(slots, hash, m, p, i);
      }
    }
  }

  lemma PrefixIsAll(slots: seq<Entry>, hash: nat -> nat, m: map<nat, Value>, sub: map<nat, Value>)
    requires Ring(slots, hash, m) && HoldsPrefix(slots, m, |slots|, sub)
    ensures sub == m
  {
    forall k | k in m
      ensures k in sub
    {
      var p :| 0 <= p < |slots| && Cells(slots)[p] == Cell(k, m[k]);
      assert slots[p].key in sub;
    }
  }

  /** Move one slot's entry, if it holds one. */
  method MoveEntry(slots: seq<Entry>, hash: nat -> nat, ghost m: map<nat, Value>, i: nat, r: seq<Entry>,
                   ghost sub: map<nat, Value>)
    returns (r': seq<Entry>, ghost sub': map<nat, Value>)
    requires Ring(slots, hash, m) && i < |slots|
    requires Refilling(slots, hash, m, i, r, sub) && Occupied(Cells(slots)) < |r|
    ensures Refilling(slots, hash, m, i + 1, r', sub') && |r'| == |r|
  {
    RingShape(r, hash, sub);
    hide Ring, Occupied;
    r', sub' := r, sub;
    PrefixGrows(slots, hash, m, i, sub);
    OccupiedDrop(Cells(slots), i);
    if slots[i].key != EMPTY_KEY {
      var p := WalkToFree(r, HomePair(hash(slots[i].key), |r|));
      StoreEntry(r, hash, sub, slots[i], p);
      r' := r[p := slots[i]];
      sub' := sub[slots[i].key := (slots[i].val, slots[i].ext)];
    }
  }

  /** Move every entry into a fresh ring of `newLen` slots. */
  method Refill(slots: seq<Entry>, hash: nat -> nat, ghost m: map<nat, Value>, newLen: nat) returns (r: seq<Entry>)
    requires Ring(slots, hash, m) && Occupied(Cells(slots)) < newLen && newLen % 2 == 0
    ensures Ring(r, hash, m) && |r| == newLen && Occupied(Cells(r)) == Occupied(Cells(slots))
  {
    hide Ring, Occupied, Refilling;
    r := seq(newLen, _ => Entry(EMPTY_KEY, 0, 0));
    ghost var sub: map<nat, Value> := map[];
    RefillStarts(slots, hash, m, r);
    for i := 0 to |slots|
      invariant |r| == newLen && Refilling(slots, hash, m, i, r, sub)
    {
      r, sub := MoveEntry(slots, hash, m, i, r, sub);
    }
    RefillEnds(slots, hash, m, r, sub);
  }

  lemma RefillStarts(slots: seq<Entry>, hash: nat -> nat, m: map<nat, Value>, r: seq<Entry>)
    requires |r| > 0 && |r| % 2 == 0 && forall p :: 0 <= p < |r| ==> r[p].key == EMPTY_KEY
    ensures Refilling(slots, hash, m, 0, r, map[])
  {
    EmptyRing(r, hash);
    assert Cells(slots)[0..] == Cells(slots);
  }

  lemma RefillEnds(slots: seq<Entry>, hash: nat -> nat, m: map<nat, Value>, r: seq<Entry>, sub: map<nat, Value>)
    requires Ring(slots, hash, m) && Refilling(slots, hash, m, |slots|, r, sub)
    ensures Ring(r, hash, m) && Occupied(Cells(r)) == Occupied(Cells(slots))
  {
    OccupiedNothing(Cells(slots)[|slots|..]);
    PrefixIsAll(slots, hash, m, sub);
  }

  /** The smallest doubling of `cap` that holds `n + 1` entries at three-quarters load. */
  function RoomFor(n: nat, cap: nat): (r: nat)
    requires cap > 0
    ensures r >= cap && (n + 1) * 4 <= r * 3
    decreases if (n + 1) * 4 > cap * 3 then (n + 1) * 4 - cap * 3 else 0
  {
    if (n + 1) * 4 > cap * 3 then RoomFor(n, cap * 2) else cap
  }

  lemma {:induction false} RoomIsPower(n: nat, cap: nat)
    requires PowerOfTwo(cap)
    ensures PowerOfTwo(RoomFor(n, cap))
    decreases if (n + 1) * 4 > cap * 3 then (n + 1) * 4 - cap * 3 else 0
  {
    if (n + 1) * 4 > cap * 3 {
      DoubleIsPower(cap);
      RoomIsPower(n, cap * 2);
    }
  }

  const FLOOR_SLOTS: nat := 65536

  lemma FloorIsPower()
    ensures PowerOfTwo(FLOOR_SLOTS)
  {
    assert PowerOfTwo(16);
    assert PowerOfTwo(256);
    assert PowerOfTwo(4096);
  }

  class ShortPretokenCache {
    const hash: nat -> nat
    var slots: seq<Entry>
    var len: nat
    ghost var contents: map<nat, Value>

    ghost predicate Valid()
      reads this
    {
      && Ring(slots, hash, contents)
      && Occupied(Cells(slots)) == len
      && |slots| >= 2 && PowerOfTwo(|slots|)
      && 4 * len <= 3 * |slots|
    }

    /** Room for `n` entries without growing, from at least `minSlots` slots. */
    constructor (n: nat, minSlots: nat, hash: nat -> nat)
      ensures Valid() && contents == map[] && this.hash == hash
      ensures len == 0 && 4 * (n + 1) <= 3 * |slots| && minSlots <= |slots|
    {
      var cap := RoomFor(n, NextPowerOfTwo(minSlots, FLOOR_SLOTS));
      this.hash := hash;
      slots := seq(cap, _ => Entry(EMPTY_KEY, 0, 0));
      len, contents := 0, map[];
      new;
      FloorIsPower();
      NextIsPower(minSlots, FLOOR_SLOTS);
      RoomIsPower(n, NextPowerOfTwo(minSlots, FLOOR_SLOTS));
      EmptyRing(slots, hash);
    }

    /** The key's value, or the slot where it belongs. */
    method GetOrSlot(key: nat, h: nat) returns (r: Result<Value, nat>)
      requires Valid() && key != EMPTY_KEY && h == hash(key)
      ensures r.Ok? <==> key in contents
      ensures r.Ok? ==> r.value == contents[key]
      ensures r.Err? ==> |slots| > 0 && |slots| % 2 == 0 && FirstFree(slots, HomePair(h, |slots|), r.error)
    {
      RingShape(slots, hash, contents);
      var at := WalkToKey(slots, hash, contents, key, HomePair(h, |slots|));
      r := match at
        case Hit(slot) => Ok((slots[slot].val, slots[slot].ext))
        case Miss(slot) => Err(slot);
    }

    /** Double the ring; nothing stored changes. */
    method Grow()
      requires Valid()
      modifies `slots
      ensures Valid() && |slots| == 2 * |old(slots)| && 4 * (len + 1) <= 3 * |slots|
    {
      hide Ring, Occupied, PowerOfTwo;
      DoubleIsPower(|slots|);
      slots := Refill(slots, hash, contents, 2 * |slots|);
    }

    /** Write an absent key into its first free slot. */
    method Place(key: nat, val: nat, ext: nat, slot: nat)
      requires Valid() && key != EMPTY_KEY && key !in contents && 4 * (len + 1) <= 3 * |slots|
      requires |slots| % 2 == 0 && FirstFree(slots, HomePair(hash(key), |slots|), slot)
      modifies this
      ensures Valid() && contents == old(contents)[key := (val, ext)]
    {
      hide Ring, Occupied, PowerOfTwo;
      StoreEntry(slots, hash, contents, Entry(key, val, ext), slot);
      slots := slots[slot := Entry(key, val, ext)];
      len := len + 1;
      contents := contents[key := (val, ext)];
    }

    /** Insert a key known to be absent. */
    method Insert(key: nat, h: nat, val: nat, ext: nat)
      requires Valid() && key != EMPTY_KEY && h == hash(key) && key !in contents
      modifies this
      ensures Valid() && contents == old(contents)[key := (val, ext)]
    {
      if (len + 1) * 4 > |slots| * 3 {
        Grow();
      }
      RingShape(slots, hash, contents);
      var slot := WalkToFree(slots, HomePair(h, |slots|));
      Place(key, val, ext, slot);
    }

    /** Insert at the slot a failed lookup reported, unless growth moves it. */
    method InsertAt(slot: nat, key: nat, h: nat, val: nat, ext: nat)
      requires Valid() && key != EMPTY_KEY && h == hash(key) && key !in contents
      requires |slots| > 0 && |slots| % 2 == 0 && FirstFree(slots, HomePair(h, |slots|), slot)
      modifies this
      ensures Valid() && contents == old(contents)[key := (val, ext)]
    {
      var target := slot;
      if (len + 1) * 4 > |slots| * 3 {
        Grow();
        RingShape(slots, hash, contents);
        target := WalkToFree(slots, HomePair(h, |slots|));
      }
      Place(key, val, ext, target);
    }

    /** Insert or overwrite. */
    method Replace(key: nat, h: nat, val: nat, ext: nat)
      requires Valid() && key != EMPTY_KEY && h == hash(key)
      modifies this
      ensures Valid() && contents == old(contents)[key := (val, ext)]
    {
      hide Ring, Occupied, PowerOfTwo;
      RingShape(slots, hash, contents);
      var at := WalkToKey(slots, hash, contents, key, HomePair(h, |slots|));
      match at {
        case Hit(slot) =>
          OverwriteEntry(slots, hash, contents, Entry(key, val, ext), slot);
          slots := slots[slot := Entry(key, val, ext)];
          contents := contents[key := (val, ext)];
        case Miss(_) =>
          Insert(key, h, val, ext);
      }
    }

    /**
     The branch-free probe of the home pair. A positive answer for a real key is that
     key's value, whatever hash it was probed with; otherwise the value lanes belong to
     some other entry.
     */
    method ProbePair(key: nat, h: nat) returns (val: nat, ext: nat, found: bool)
      requires Valid()
      ensures key != EMPTY_KEY && found ==> key in contents && contents[key] == (val, ext)
      ensures |slots| > 0 && |slots| % 2 == 0
      ensures var p := HomePair(h, |slots|);
              found <==> slots[p].key == key || slots[p + 1].key == key
    {
      RingShape(slots, hash, contents);
      hide Ring, Occupied, PowerOfTwo, Cells;
      var p := HomePair(h, |slots|);
      var e0, e1 := slots[p], slots[p + 1];
      val, ext := if e0.key == key then e0.val else e1.val, if e0.key == key then e0.ext else e1.ext;
      found := e0.key == key || e1.key == key;
      if key != EMPTY_KEY && found {
        StoredValue(slots, hash, contents, if e0.key == key then p else p + 1);
      }
    }
  }
}

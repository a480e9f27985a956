/**
 The fingerprint table: Robin Hood hashing that stores ids and one-byte
 fingerprints, not keys. An incoming entry takes the slot of any entry closer to
 its home, so a lookup can stop early.
 */
module Fingerprints {
  import opened Prelude
  import opened Probing

  type Key = seq<Byte>

  const U16_MAX: nat := 65535
  const TWO_64: nat := 0x1_0000_0000_0000_0000

  datatype TableKey = TableKey(id: nat, bytes: Key)

  datatype BuildError =
    | EmptyKeySet
    | InvalidLoadPermille(value: nat)
    | DuplicateKey
    | IdOverflow(id: nat)
    | SizeOverflow
    | DisplacementOverflow

  datatype Slot = Slot(idPlusOne: nat, displacement: nat, fingerprint: nat, occupied: bool)

  const VACANT := Slot(0, 0, 0, false)

  /** The functions a table is built with: key bytes of an id, hash, fingerprint. */
  datatype Scheme = Scheme(names: nat -> Key, hash: Key -> nat, fingerprint: Key -> nat)

  /** Scale a 64-bit hash to `0..range`. */
  function Map64(value: nat, range: nat): (p: nat)
    requires value < TWO_64 && range > 0
    ensures p < range
  {
    ScaledBelow(value, range);
    value * range / TWO_64
  }

  lemma ScaledBelow(value: nat, range: nat)
    requires value < TWO_64 && range > 0
    ensures 0 <= value * range / TWO_64 < range
  {
    MulMonotone(value, TWO_64 - 1, range);
    assert value * range < TWO_64 * range;
  }

  lemma {:induction false} MulMonotone(a: nat, b: nat, c: nat)
    requires a <= b
    ensures a * c <= b * c
  {
    if c > 0 {
      MulMonotone(a, b, c - 1);
      assert a * c == a * (c - 1) + a && b * c == b * (c - 1) + b;
    }
  }

  function Home(s: Scheme, k: Key, n: nat): (h: nat)
    requires n > 0
    ensures h < n
  {
    Map64(s.hash(k) % TWO_64, n)
  }

  function IdOf(e: Slot): nat
    requires e.idPlusOne > 0
  {
    e.idPlusOne - 1
  }

  function KeyOf(s: Scheme, e: Slot): Key
    requires e.idPlusOne > 0
  {
    s.names(IdOf(e))
  }

  function PrevOnRing(n: nat, p: nat): (q: nat)
    requires p < n
    ensures q < n
  {
    if p == 0 then n - 1 else p - 1
  }

  /** An entry that could sit at `p`: its displacement is its distance from home. */
  ghost predicate Placed(s: Scheme, n: nat, e: Slot, p: nat)
    requires p < n
  {
    && e.occupied && e.idPlusOne > 0 && e.displacement <= U16_MAX
    && e.displacement == Dist(n, Home(s, KeyOf(s, e), n), p)
    && e.fingerprint == s.fingerprint(KeyOf(s, e))
  }

  /** The slot before `p` holds an entry displaced by at least `d - 1`. */
  ghost predicate Backed(slots: seq<Slot>, p: nat, d: nat)
    requires p < |slots|
  {
    d > 0 ==> slots[PrevOnRing(|slots|, p)].occupied && slots[PrevOnRing(|slots|, p)].displacement + 1 >= d
  }

  /** The Robin Hood invariant. */
  ghost predicate RobinHood(s: Scheme, slots: seq<Slot>) {
    forall p :: 0 <= p < |slots| && slots[p].occupied ==>
      Placed(s, |slots|, slots[p], p) && Backed(slots, p, slots[p].displacement)
  }

  /** No id is stored twice. */
  ghost predicate DistinctIds(slots: seq<Slot>) {
    forall p, q :: 0 <= p < q < |slots| && slots[p].occupied && slots[q].occupied ==>
      slots[p].idPlusOne != slots[q].idPlusOne
  }

  ghost predicate Stored(slots: seq<Slot>, id: nat) {
    exists p :: 0 <= p < |slots| && slots[p].occupied && slots[p].idPlusOne == id + 1
  }

  lemma BackedAt(s: Scheme, slots: seq<Slot>, p: nat)
    requires RobinHood(s, slots) && p < |slots| && slots[p].occupied
    ensures Placed(s, |slots|, slots[p], p) && Backed(slots, p, slots[p].displacement)
  {
  }

  /** Every slot on the way from an entry's home holds an entry at least that far displaced. */
  lemma {:induction false} PathIsFull(s: Scheme, slots: seq<Slot>, p: nat, d: nat, h: nat, q: nat)
    requires RobinHood(s, slots) && p < |slots| && h < |slots| && q < |slots|
    requires Backed(slots, p, d) && d == Dist(|slots|, h, p) && Dist(|slots|, h, q) < d
    ensures slots[q].occupied && slots[q].displacement >= Dist(|slots|, h, q)
    decreases d
  {
    hide RobinHood, Placed;
    var n, b := |slots|, PrevOnRing(|slots|, p);
    assert Dist(n, h, b) == d - 1;
    if Dist(n, h, q) == d - 1 {
      AtDist(n, h, b);
      AtDist(n, h, q);
    } else {
      BackedAt(s, slots, b);
      PathIsFull(s, slots, b, d - 1, h, q);
    }
  }

  /** The entry being carried to `p` by an insertion. */
  ghost predicate Carried(s: Scheme, slots: seq<Slot>, e: Slot, p: nat)
    requires p < |slots|
  {
    Placed(s, |slots|, e, p) && Backed(slots, p, e.displacement)
  }

  /** Moving past an occupied slot keeps the carried entry one step further from home. */
  lemma CarryOn(s: Scheme, slots: seq<Slot>, e: Slot, p: nat, free: nat)
    requires RobinHood(s, slots) && p < |slots| && Carried(s, slots, e, p)
    requires slots[p].occupied && slots[p].displacement >= e.displacement
    requires free < |slots| && !slots[free].occupied && e.displacement < U16_MAX
    ensures Carried(s, slots, e.(displacement := e.displacement + 1), NextOnRing(|slots|, p))
  {
    hide RobinHood, Home;
    var n, h := |slots|, Home(s, KeyOf(s, e), |slots|);
    if Dist(n, h, free) < e.displacement {
      PathIsFull(s, slots, p, e.displacement, h, free);
    }
    if Dist(n, h, free) == e.displacement {
      AtDist(n, h, free);
      AtDist(n, h, p);
    }
    NextIsOneStep(n, h, p);
    assert PrevOnRing(n, NextOnRing(n, p)) == p;
  }

  /** Writing a carried entry over an empty slot, or over one closer to its home. */
  lemma PutKeeps(s: Scheme, slots: seq<Slot>, e: Slot, p: nat)
    requires RobinHood(s, slots) && p < |slots| && Carried(s, slots, e, p)
    requires slots[p].occupied ==> slots[p].displacement < e.displacement
    ensures RobinHood(s, slots[p := e])
  {
    hide Home, KeyOf;
    var after, n := slots[p := e], |slots|;
    forall q | 0 <= q < n && after[q].occupied
      ensures Placed(s, n, after[q], q) && Backed(after, q, after[q].displacement)
    {
      if q != p {
        BackedAt(s, slots, q);
      }
    }
  }

  /** An entry just swapped out can be carried on: its successor position is backed. */
  lemma SwappedOut(s: Scheme, slots: seq<Slot>, e: Slot, p: nat)
    requires RobinHood(s, slots) && p < |slots| && Carried(s, slots, e, p)
    requires slots[p].occupied && slots[p].displacement < e.displacement
    ensures Carried(s, slots[p := e], slots[p], p)
  {
    hide Home, KeyOf;
    BackedAt(s, slots, p);
    assert |slots| > 1;
    assert PrevOnRing(|slots|, p) != p;
  }

  /** The slots hold exactly the given ids, each once. */
  ghost predicate Holds(slots: seq<Slot>, ids: set<nat>) {
    && DistinctIds(slots)
    && (forall p :: 0 <= p < |slots| && slots[p].occupied ==> slots[p].idPlusOne > 0)
    && forall id: nat :: id in ids <==> Stored(slots, id)
  }

  /** Writing an entry exchanges the old id of the slot for the new one. */
  lemma StoredAfter(slots: seq<Slot>, e: Slot, p: nat, id: nat)
    requires DistinctIds(slots) && p < |slots| && e.occupied && e.idPlusOne > 0
    ensures Stored(slots[p := e], id) <==>
            (id == IdOf(e) || (Stored(slots, id) && !(slots[p].occupied && slots[p].idPlusOne == id + 1)))
  {
    var after := slots[p := e];
    if id == IdOf(e) {
      assert after[p].idPlusOne == id + 1;
    } else if Stored(slots, id) {
      var q :| 0 <= q < |slots| && slots[q].occupied && slots[q].idPlusOne == id + 1;
      if q != p {
        assert after[q] == slots[q];
      }
    }
    if Stored(after, id) && id != IdOf(e) {
      var q :| 0 <= q < |after| && after[q].occupied && after[q].idPlusOne == id + 1;
      assert slots[q] == after[q];
    }
  }

  lemma DistinctAfter(slots: seq<Slot>, e: Slot, p: nat)
    requires DistinctIds(slots) && p < |slots| && e.occupied && e.idPlusOne > 0 && !Stored(slots, IdOf(e))
    ensures DistinctIds(slots[p := e])
  {
  }

  /** The ids held after writing an absent entry over slot `p`. */
  function IdsAfter(ids: set<nat>, old_: Slot, e: Slot): set<nat>
    requires e.idPlusOne > 0 && (old_.occupied ==> old_.idPlusOne > 0)
  {
    (if old_.occupied then ids - {IdOf(old_)} else ids) + {IdOf(e)}
  }

  lemma HoldsAfter(slots: seq<Slot>, ids: set<nat>, e: Slot, p: nat)
    requires Holds(slots, ids) && p < |slots| && e.occupied && e.idPlusOne > 0 && IdOf(e) !in ids
    ensures slots[p].occupied ==> slots[p].idPlusOne > 0 && IdOf(slots[p]) in ids
    ensures Holds(slots[p := e], IdsAfter(ids, slots[p], e))
  {
    DistinctAfter(slots, e, p);
    if slots[p].occupied {
      assert Stored(slots, IdOf(slots[p]));
    }
    hide DistinctIds, Stored;
    forall id: nat
      ensures id in IdsAfter(ids, slots[p], e) <==> Stored(slots[p := e], id)
    {
      StoredAfter(slots, e, p, id);
    }
  }

  /** An insertion under way: the slots hold everything but the carried entry. */
  ghost predicate Inserting(s: Scheme, slots: seq<Slot>, held: set<nat>, e: Slot, p: nat, all: set<nat>) {
    && RobinHood(s, slots) && Holds(slots, held)
    && p < |slots| && Carried(s, slots, e, p)
    && IdOf(e) !in held && held + {IdOf(e)} == all
  }

  /** Swap the carried entry with the slot's entry when that one is closer to its home. */
  method SwapIfCloser(s: Scheme, slots: seq<Slot>, ghost held: set<nat>, e: Slot, p: nat, ghost all: set<nat>)
    returns (slots': seq<Slot>, e': Slot, ghost held': set<nat>)
    requires Inserting(s, slots, held, e, p, all) && slots[p].occupied
    ensures Inserting(s, slots', held', e', p, all) && |slots'| == |slots|
    ensures slots'[p].occupied && slots'[p].displacement >= e'.displacement
    ensures forall q :: 0 <= q < |slots| ==> (slots'[q].occupied <==> slots[q].occupied)
    ensures Vacancies(slots') == Vacancies(slots)
  {
    hide RobinHood, Holds, Backed, Home, Vacancies;
    slots', e', held' := slots, e, held;
    if slots[p].displacement < e.displacement {
      PutKeeps(s, slots, e, p);
      SwappedOut(s, slots, e, p);
      HoldsAfter(slots, held, e, p);
      VacanciesUpdate(slots, p, e);
      slots', e' := slots[p := e], slots[p];
      held' := IdsAfter(held, slots[p], e);
    }
  }

  lemma InsertDone(s: Scheme, slots: seq<Slot>, held: set<nat>, e: Slot, p: nat, all: set<nat>)
    requires Inserting(s, slots, held, e, p, all) && !slots[p].occupied
    ensures RobinHood(s, slots[p := e]) && Holds(slots[p := e], all) && Vacancies(slots[p := e]) == Vacancies(slots) - 1
  {
    hide RobinHood, Holds, Backed, Home, Vacancies;
    PutKeeps(s, slots, e, p);
    HoldsAfter(slots, held, e, p);
    VacanciesUpdate(slots, p, e);
  }

  lemma InsertMovesOn(s: Scheme, slots: seq<Slot>, held: set<nat>, e: Slot, p: nat, all: set<nat>, free: nat)
    requires Inserting(s, slots, held, e, p, all) && slots[p].occupied && slots[p].displacement >= e.displacement
    requires free < |slots| && !slots[free].occupied && e.displacement < U16_MAX
    ensures Inserting(s, slots, held, e.(displacement := e.displacement + 1), NextOnRing(|slots|, p), all)
    ensures Dist(|slots|, NextOnRing(|slots|, p), free) == Dist(|slots|, p, free) - 1
  {
    hide RobinHood, Holds, Backed, Home;
    CarryOn(s, slots, e, p, free);
    StepTowards(|slots|, p, free);
  }

  /** Walk from the key's home, swapping with every entry closer to its own. */
  method InsertEntry(s: Scheme, slots: seq<Slot>, ghost ids: set<nat>, key: TableKey, ghost free: nat)
    returns (r: Result<seq<Slot>, BuildError>)
    requires RobinHood(s, slots) && Holds(slots, ids)
    requires free < |slots| && !slots[free].occupied
    requires key.bytes == s.names(key.id) && key.id !in ids
    ensures r.Ok? ==> |r.value| == |slots| && RobinHood(s, r.value) && Holds(r.value, ids + {key.id})
    ensures r.Ok? ==> Vacancies(r.value) == Vacancies(slots) - 1
    ensures r == Err(IdOverflow(key.id)) <==> key.id >= U32_MAX
    ensures r.Err? ==> r.error == IdOverflow(key.id) || r.error == DisplacementOverflow
    ensures r == Err(DisplacementOverflow) ==> |slots| > Vacancies(slots) + U16_MAX
  {
    if key.id + 1 > U32_MAX {
      return Err(IdOverflow(key.id));
    }
    hide RobinHood, Holds, Vacancies, Home;
    var n := |slots|;
    var position: nat := Home(s, key.bytes, n);
    var incoming := Slot(key.id + 1, 0, s.fingerprint(key.bytes), true);
    var work := slots;
    ghost var held, all := ids, ids + {key.id};
    FreshEntry(s, slots, key);
    while work[position].occupied
      invariant |work| == n && Inserting(s, work, held, incoming, position, all)
      invariant !work[free].occupied && Vacancies(work) == Vacancies(slots)
      decreases Dist(n, position, free)
    {
      work, incoming, held := SwapIfCloser(s, work, held, incoming, position, all);
      if incoming.displacement + 1 > U16_MAX {
        WalkIsFull(s, work, incoming, position);
        return Err(DisplacementOverflow);
      }
      InsertMovesOn(s, work, held, incoming, position, all, free);
      incoming := incoming.(displacement := incoming.displacement + 1);
      position := NextOnRing(n, position);
    }
    InsertDone(s, work, held, incoming, position, all);
    r := Ok(work[position := incoming]);
  }

  lemma FreshEntry(s: Scheme, slots: seq<Slot>, key: TableKey)
    requires slots != [] && key.bytes == s.names(key.id)
    ensures Carried(s, slots, Slot(key.id + 1, 0, s.fingerprint(key.bytes), true), Home(s, key.bytes, |slots|))
  {
  }

  lemma StepTowards(n: nat, p: nat, free: nat)
    requires p < n && free < n && p != free
    ensures Dist(n, NextOnRing(n, p), free) == Dist(n, p, free) - 1
  {
  }

  function Vacancies(slots: seq<Slot>): nat {
    if slots == [] then 0 else (if slots[0].occupied then 0 else 1) + Vacancies(slots[1..])
  }

  lemma {:induction false} VacanciesUpdate(slots: seq<Slot>, p: nat, e: Slot)
    requires p < |slots| && e.occupied
    ensures Vacancies(slots[p := e]) == Vacancies(slots) - (if slots[p].occupied then 0 else 1)
  {
    if p == 0 {
      assert slots[p := e][1..] == slots[1..];
    } else {
      assert slots[p := e][1..] == slots[1..][p - 1 := e];
      VacanciesUpdate(slots[1..], p - 1, e);
    }
  }

  lemma {:induction false} VacanciesSplit(slots: seq<Slot>, h: nat)
    requires h <= |slots|
    ensures Vacancies(slots) == Vacancies(slots[..h]) + Vacancies(slots[h..])
    decreases h
  {
    if h == 0 {
      assert slots[..0] == [] && slots[0..] == slots;
    } else {
      VacanciesSplit(slots[1..], h - 1);
      assert slots[1..][..h - 1] == slots[..h][1..] && slots[1..][h - 1..] == slots[h..];
    }
  }

  lemma {:induction false} FewVacancies(slots: seq<Slot>, t: nat)
    requires t <= |slots| && forall p :: 0 <= p < t ==> slots[p].occupied
    ensures Vacancies(slots) <= |slots| - t
    decreases |slots|
  {
    if slots != [] {
      FewVacancies(slots[1..], if t > 0 then t - 1 else 0);
    }
  }

  /** A run of occupied slots around the ring leaves no more vacancies than the other slots. */
  lemma RunIsOccupied(slots: seq<Slot>, h: nat, d: nat)
    requires h < |slots| && d <= |slots|
    requires forall q :: 0 <= q < |slots| && Dist(|slots|, h, q) < d ==> slots[q].occupied
    ensures Vacancies(slots) + d <= |slots|
  {
    VacanciesSplit(slots, h);
    if h + d <= |slots| {
      FewVacancies(slots[h..], d);
      FewVacancies(slots[..h], 0);
    } else {
      FewVacancies(slots[h..], |slots| - h);
      FewVacancies(slots[..h], h + d - |slots|);
    }
  }

  /** The walk of a carried entry, its slot included, is occupied throughout. */
  lemma WalkIsFull(s: Scheme, slots: seq<Slot>, e: Slot, p: nat)
    requires RobinHood(s, slots) && p < |slots| && Carried(s, slots, e, p) && slots[p].occupied
    ensures Vacancies(slots) + e.displacement + 1 <= |slots|
  {
    hide RobinHood, Home, Vacancies;
    var n, h := |slots|, Home(s, KeyOf(s, e), |slots|);
    forall q | 0 <= q < n && Dist(n, h, q) < e.displacement + 1
      ensures slots[q].occupied
    {
      if Dist(n, h, q) < e.displacement {
        PathIsFull(s, slots, p, e.displacement, h, q);
      } else {
        AtDist(n, h, p);
        AtDist(n, h, q);
      }
    }
    RunIsOccupied(slots, h, e.displacement + 1);
  }

  lemma {:induction false} VacancyExists(slots: seq<Slot>) returns (p: nat)
    requires Vacancies(slots) > 0
    ensures p < |slots| && !slots[p].occupied
  {
    if !slots[0].occupied {
      p := 0;
    } else {
      var q := VacancyExists(slots[1..]);
      p := q + 1;
    }
  }

  /** The first `t` slots of the walk are occupied, none by an entry for `key`. */
  ghost predicate Searched(s: Scheme, slots: seq<Slot>, h: nat, t: nat, key: Key)
    requires h < |slots|
  {
    forall q :: 0 <= q < |slots| && Dist(|slots|, h, q) < t ==>
      slots[q].occupied && slots[q].idPlusOne > 0 && KeyOf(s, slots[q]) != key
  }

  /** An empty slot, or one closer to its home than the walk is long, proves the key absent. */
  lemma EarlyExitIsSafe(s: Scheme, slots: seq<Slot>, ids: set<nat>, key: Key, p: nat, t: nat)
    requires RobinHood(s, slots) && Holds(slots, ids) && p < |slots|
    requires t == Dist(|slots|, Home(s, key, |slots|), p) && Searched(s, slots, Home(s, key, |slots|), t, key)
    requires !slots[p].occupied || slots[p].displacement < t
    ensures forall id: nat :: id in ids ==> s.names(id) != key
  {
    hide RobinHood, Holds, Searched, Home;
    forall id: nat | id in ids
      ensures s.names(id) != key
    {
      var q := SlotOf(slots, ids, id);
      NotBeyond(s, slots, key, p, t, q);
    }
  }

  lemma SlotOf(slots: seq<Slot>, ids: set<nat>, id: nat) returns (q: nat)
    requires Holds(slots, ids) && id in ids
    ensures q < |slots| && slots[q].occupied && slots[q].idPlusOne == id + 1
  {
    assert Stored(slots, id);
    q :| q < |slots| && slots[q].occupied && slots[q].idPlusOne == id + 1;
  }

  lemma NotBeyond(s: Scheme, slots: seq<Slot>, key: Key, p: nat, t: nat, q: nat)
    requires RobinHood(s, slots) && p < |slots| && q < |slots| && slots[q].occupied
    requires t == Dist(|slots|, Home(s, key, |slots|), p) && Searched(s, slots, Home(s, key, |slots|), t, key)
    requires !slots[p].occupied || slots[p].displacement < t
    ensures slots[q].idPlusOne > 0 && KeyOf(s, slots[q]) != key
  {
    hide RobinHood, Home;
    var n, h := |slots|, Home(s, key, |slots|);
    BackedAt(s, slots, q);
    if KeyOf(s, slots[q]) == key {
      if t < Dist(n, h, q) {
        PathIsFull(s, slots, q, slots[q].displacement, h, p);
      } else if t == Dist(n, h, q) {
        AtDist(n, h, p);
        AtDist(n, h, q);
      }
    }
  }

  lemma SearchedOneMore(s: Scheme, slots: seq<Slot>, h: nat, p: nat, key: Key, free: nat)
    requires h < |slots| && p < |slots| && free < |slots| && !slots[free].occupied
    requires Searched(s, slots, h, Dist(|slots|, h, p), key)
    requires slots[p].occupied && slots[p].idPlusOne > 0 && KeyOf(s, slots[p]) != key
    ensures Dist(|slots|, h, NextOnRing(|slots|, p)) == Dist(|slots|, h, p) + 1
    ensures Searched(s, slots, h, Dist(|slots|, h, p) + 1, key)
  {
    var n, t := |slots|, Dist(|slots|, h, p);
    forall q | 0 <= q < n && Dist(n, h, q) < t + 1
      ensures slots[q].occupied && slots[q].idPlusOne > 0 && KeyOf(s, slots[q]) != key
    {
      if Dist(n, h, q) == t {
        AtDist(n, h, p);
        AtDist(n, h, q);
      }
    }
    assert Dist(n, h, free) >= t + 1;
    NextIsOneStep(n, h, p);
  }

  /** Probe by fingerprint, confirm by key; stop early at a slot closer to its home. */
  method FindId(s: Scheme, slots: seq<Slot>, ghost ids: set<nat>, key: Key) returns (r: Option<nat>)
    requires RobinHood(s, slots) && Holds(slots, ids) && Vacancies(slots) > 0
    ensures r.Some? ==> r.value in ids && s.names(r.value) == key
    ensures r.None? ==> forall id: nat :: id in ids ==> s.names(id) != key
  {
    hide RobinHood, Home, Vacancies;
    ghost var free := VacancyExists(slots);
    var n := |slots|;
    ghost var h := Home(s, key, n);
    var position: nat, displacement: nat := Home(s, key, n), 0;
    var wanted := s.fingerprint(key);
    while true
      invariant position < n && displacement == Dist(n, h, position) <= U16_MAX
      invariant Searched(s, slots, h, displacement, key)
      decreases n - displacement
    {
      var slot := slots[position];
      if !slot.occupied || slot.displacement < displacement {
        EarlyExitIsSafe(s, slots, ids, key, position, displacement);
        return None;
      }
      BackedAt(s, slots, position);
      if slot.fingerprint == wanted && s.names(IdOf(slot)) == key {
        assert Stored(slots, IdOf(slot));
        return Some(IdOf(slot));
      }
      SearchedOneMore(s, slots, h, position, key, free);
      if displacement + 1 > U16_MAX {
        NothingBeyondLimit(s, slots, ids, key, position);
        return None;
      }
      displacement := displacement + 1;
      position := NextOnRing(n, position);
    }
  }

  /** Displacements are 16-bit, so a walk that long has seen every candidate. */
  lemma NothingBeyondLimit(s: Scheme, slots: seq<Slot>, ids: set<nat>, key: Key, p: nat)
    requires RobinHood(s, slots) && Holds(slots, ids) && p < |slots|
    requires Searched(s, slots, Home(s, key, |slots|), U16_MAX + 1, key)
    ensures forall id: nat :: id in ids ==> s.names(id) != key
  {
    forall id: nat | id in ids
      ensures s.names(id) != key
    {
      var q := SlotOf(slots, ids, id);
      BackedAt(s, slots, q);
      assert KeyOf(s, slots[q]) == s.names(id);
    }
  }

  // ------------------------------------------------------------------
  // Building and searching a table
  // ------------------------------------------------------------------

  /** Slots for `count` keys at the requested load: `ceil(count * 1000 / permille)`. */
  function SlotCount(count: nat, permille: nat): nat
    requires permille > 0
  {
    (count * 1000 + permille - 1) / permille
  }

  /** It is the least count at which the keys stay within the load. */
  lemma SlotCountIsLeast(count: nat, permille: nat, n: nat)
    requires permille > 0
    ensures SlotCount(count, permille) <= n <==> count * 1000 <= permille * n
  {
    var c := SlotCount(count, permille);
    assert permille * c <= count * 1000 + permille - 1 < permille * (c + 1);
    if c <= n {
      MulMonotone(c, n, permille);
      assert permille * (c + 1) == permille * c + permille;
    } else {
      MulMonotone(n + 1, c, permille);
      assert permille * (n + 1) == permille * n + permille;
    }
  }

  /** Below full load some slot stays empty. */
  lemma LoadLeavesRoom(count: nat, permille: nat)
    requires 0 < permille < 1000 && count > 0
    ensures SlotCount(count, permille) > count
  {
    MulMonotone(permille, 999, count);
    assert permille * (count + 1) == permille * count + permille;
    QuotientAtLeast(count * 1000 + permille - 1, permille, count + 1);
  }

  lemma QuotientAtLeast(x: nat, d: nat, q: nat)
    requires d > 0 && d * q <= x
    ensures q <= x / d
  {
    var k := x / d + 1;
    assert k * d == x / d * d + d;
    assert q * d == d * q;
    if k <= q {
      MulMonotone(k, q, d);
    }
  }

  /** The slot count can be computed and is a 32-bit number. */
  predicate SizeFits(count: nat, permille: nat, usizeMax: nat)
    requires permille > 0
  {
    count * 1000 <= usizeMax && SlotCount(count, permille) <= U32_MAX
  }

  /** No id is the one whose successor does not fit. */
  ghost predicate IdsFit(keys: seq<TableKey>) {
    forall i :: 0 <= i < |keys| ==> keys[i].id < U32_MAX
  }

  ghost predicate DistinctBytes(keys: seq<TableKey>) {
    forall i, j :: 0 <= i < j < |keys| ==> keys[i].bytes != keys[j].bytes
  }

  ghost function IdsOf(keys: seq<TableKey>, i: nat): set<nat>
    requires i <= |keys|
  {
    set j | 0 <= j < i :: keys[j].id
  }

  class FingerprintTable {
    const scheme: Scheme
    var slots: seq<Slot>
    var keyCount: nat
    ghost var ids: set<nat>

    ghost predicate Valid()
      reads this
    {
      RobinHood(scheme, slots) && Holds(slots, ids) && Vacancies(slots) > 0
    }

    constructor (scheme: Scheme, slots: seq<Slot>, keyCount: nat, ghost ids: set<nat>)
      ensures this.scheme == scheme && this.slots == slots && this.keyCount == keyCount && this.ids == ids
    {
      this.scheme, this.slots, this.keyCount, this.ids := scheme, slots, keyCount, ids;
    }

    /**
     Build a table over keys whose ids name their bytes. Each refusal has its cause, and up
     to 2^16 distinct keys with ids below 2^32 - 1 are never refused for their places.
     */
    static method Build(scheme: Scheme, keys: seq<TableKey>, permille: nat, usizeMax: nat)
      returns (r: Result<FingerprintTable, BuildError>)
      requires forall i :: 0 <= i < |keys| ==> keys[i].bytes == scheme.names(keys[i].id)
      ensures r.Ok? ==> fresh(r.value) && r.value.Valid() && r.value.scheme == scheme && r.value.keyCount == |keys|
      ensures r.Ok? ==> r.value.ids == IdsOf(keys, |keys|)
      ensures r.Ok? ==> 1 <= permille < 1000 && |r.value.slots| == SlotCount(|keys|, permille)
      ensures r == Err(EmptyKeySet) <==> keys == []
      ensures r == Err(InvalidLoadPermille(permille)) <==> keys != [] && !(1 <= permille < 1000)
      ensures r == Err(DuplicateKey) <==>
                keys != [] && 1 <= permille < 1000 && |keys| <= U32_MAX && !DistinctBytes(keys)
      ensures r == Err(SizeOverflow) <==>
                && keys != [] && 1 <= permille < 1000
                && (|keys| > U32_MAX || (DistinctBytes(keys) && !SizeFits(|keys|, permille, usizeMax)))
      ensures r.Ok? || r == Err(DisplacementOverflow) || (r.Err? && r.error.IdOverflow?) <==>
                && keys != [] && 1 <= permille < 1000 && |keys| <= U32_MAX && DistinctBytes(keys)
                && SizeFits(|keys|, permille, usizeMax)
      ensures r.Ok? ==> IdsFit(keys)
      ensures r.Err? && r.error.IdOverflow? ==>
                exists i :: 0 <= i < |keys| && keys[i].id == r.error.id >= U32_MAX
      ensures r == Err(DisplacementOverflow) ==> |keys| > U16_MAX + 1
    {
      if keys == [] {
        return Err(EmptyKeySet);
      }
      if permille < 1 || permille >= 1000 {
        return Err(InvalidLoadPermille(permille));
      }
      if |keys| > U32_MAX {
        return Err(SizeOverflow);
      }
      if exists i, j :: 0 <= i < j < |keys| && keys[i].bytes == keys[j].bytes {
        return Err(DuplicateKey);
      }
      if !SizeFits(|keys|, permille, usizeMax) {
        return Err(SizeOverflow);
      }
      LoadLeavesRoom(|keys|, permille);
      var filled := Fill(scheme, keys, SlotCount(|keys|, permille));
      if filled.Err? {
        return Err(filled.error);
      }
      var table := new FingerprintTable(scheme, filled.value, |keys|, IdsOf(keys, |keys|));
      r := Ok(table);
    }

    /** The finite map: the id of a stored key, and nothing for any other key. */
    method Lookup(key: Key) returns (r: Option<nat>)
      requires Valid()
      ensures r.Some? ==> r.value in ids && scheme.names(r.value) == key
      ensures r.None? ==> forall id: nat :: id in ids ==> scheme.names(id) != key
    {
      r := FindId(scheme, slots, ids, key);
    }
  }

  /** Insert all keys into an empty ring. */
  method Fill(scheme: Scheme, keys: seq<TableKey>, slotCount: nat) returns (r: Result<seq<Slot>, BuildError>)
    requires slotCount > |keys|
    requires forall i :: 0 <= i < |keys| ==> keys[i].bytes == scheme.names(keys[i].id)
    requires DistinctBytes(keys)
    ensures r.Ok? ==> RobinHood(scheme, r.value) && Holds(r.value, IdsOf(keys, |keys|)) && Vacancies(r.value) > 0
    ensures r.Ok? ==> IdsFit(keys) && |r.value| == slotCount
    ensures r.Err? ==> r.error.IdOverflow? || r.error.DisplacementOverflow?
    ensures r.Err? && r.error.IdOverflow? ==> exists i :: 0 <= i < |keys| && keys[i].id == r.error.id >= U32_MAX
    ensures r == Err(DisplacementOverflow) ==> |keys| > U16_MAX + 1
  {
    var slots := seq(slotCount, _ => VACANT);
    EmptySlots(scheme, slots);
    hide RobinHood, Holds, Vacancies;
    for i := 0 to |keys|
      invariant RobinHood(scheme, slots) && Holds(slots, IdsOf(keys, i))
      invariant |slots| == slotCount && Vacancies(slots) == slotCount - i
      invariant forall j :: 0 <= j < i ==> keys[j].id < U32_MAX
    {
      ghost var free := VacancyExists(slots);
      NewId(scheme, keys, i);
      var inserted := InsertEntry(scheme, slots, IdsOf(keys, i), keys[i], free);
      if inserted.Err? {
        return Err(inserted.error);
      }
      slots := inserted.value;
    }
    r := Ok(slots);
  }

  lemma NewId(scheme: Scheme, keys: seq<TableKey>, i: nat)
    requires i < |keys| && DistinctBytes(keys)
    requires forall j :: 0 <= j < |keys| ==> keys[j].bytes == scheme.names(keys[j].id)
    ensures keys[i].id !in IdsOf(keys, i) && IdsOf(keys, i + 1) == IdsOf(keys, i) + {keys[i].id}
  {
  }

  lemma EmptySlots(scheme: Scheme, slots: seq<Slot>)
    requires forall p :: 0 <= p < |slots| ==> slots[p] == VACANT
    ensures RobinHood(scheme, slots) && Holds(slots, {}) && Vacancies(slots) == |slots|
  {
    AllVacant(slots);
  }

  lemma {:induction false} AllVacant(slots: seq<Slot>)
    requires forall p :: 0 <= p < |slots| ==> slots[p] == VACANT
    ensures Vacancies(slots) == |slots|
  {
    if slots != [] {
      AllVacant(slots[1..]);
    }
  }
}

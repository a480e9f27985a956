/**
 Exporting the flat slots of a pair-rank table and importing them again without
 rebuilding: the checks on an untrusted image, and the round trip.
 */
module PairImages {
  import opened Prelude
  import opened Probing
  import opened PairRanks

  /** An occupied slot's position and contents. */
  type SlotEntry = (nat, nat)

  function Left(packed: nat): nat { SlotKey(SlotKey(packed)) }

  function Right(packed: nat): nat { SlotMerged(SlotKey(packed)) }

  /** A packed slot is determined by its three ids. */
  lemma Repacked(packed: nat)
    ensures PackKey(Left(packed), Right(packed)) == SlotKey(packed)
    ensures PackSlot(SlotKey(packed), SlotMerged(packed)) == packed
  {
  }

  // ------------------------------------------------------------------
  // What an image says
  // ------------------------------------------------------------------

  function EmptySlots(n: nat): seq<nat> {
    seq(n, _ => U64_MAX)
  }

  /** The slots after writing the entries in order. */
  function Written(n: nat, entries: seq<SlotEntry>): (slots: seq<nat>)
    ensures |slots| == n
  {
    if entries == [] then EmptySlots(n)
    else
      var e := entries[|entries| - 1];
      var before := Written(n, entries[..|entries| - 1]);
      if e.0 < n then before[e.0 := e.1] else before
  }

  function PackedOf(entries: seq<SlotEntry>): map<nat, nat> {
    if entries == [] then map[]
    else
      var e := entries[|entries| - 1];
      PackedOf(entries[..|entries| - 1])[SlotKey(e.1) := SlotMerged(e.1)]
  }

  function MergesOf(entries: seq<SlotEntry>): map<Pair, nat> {
    if entries == [] then map[]
    else
      var e := entries[|entries| - 1];
      MergesOf(entries[..|entries| - 1])[(Left(e.1), Right(e.1)) := SlotMerged(e.1)]
  }

  function GridOf(entries: seq<SlotEntry>): (dense: seq<nat>)
    ensures |dense| == DENSE * DENSE
  {
    if entries == [] then seq(DENSE * DENSE, _ => U32_MAX)
    else
      var e := entries[|entries| - 1];
      GridAfter(GridOf(entries[..|entries| - 1]), Left(e.1), Right(e.1), SlotMerged(e.1))
  }

  /** The next entry of an image: a free slot of the ring, and ids of the vocabulary. */
  predicate EntryOk(slots: seq<nat>, e: SlotEntry, vocabLen: nat) {
    && e.0 < |slots| && slots[e.0] == U64_MAX && e.1 != U64_MAX
    && Left(e.1) < vocabLen && Right(e.1) < vocabLen && SlotMerged(e.1) < vocabLen
  }

  ghost predicate EntriesOk(n: nat, entries: seq<SlotEntry>, vocabLen: nat) {
    forall i :: 0 <= i < |entries| ==> EntryOk(Written(n, entries[..i]), entries[i], vocabLen)
  }

  /** A search for the entry's key gets to its slot within the limit. */
  ghost predicate Reachable(slots: seq<nat>, hash: nat -> nat, e: SlotEntry)
    requires e.0 < |slots|
  {
    var n := |slots|;
    var home := Home(hash, n)(SlotKey(e.1));
    && Dist(n, home, e.0) <= MAX_DISPLACEMENT
    && forall p :: 0 <= p < n && Dist(n, home, p) < Dist(n, home, e.0) ==> slots[p] != U64_MAX
  }

  /** The images the importer accepts. */
  ghost predicate Importable(slotCount: nat, entries: seq<SlotEntry>, vocabLen: nat, hash: nat -> nat) {
    && vocabLen <= ID_LIMIT && SlotsFor(|entries|) == slotCount
    && EntriesOk(slotCount, entries, vocabLen)
    && forall i :: 0 <= i < |entries| && entries[i].0 < slotCount ==>
         Reachable(Written(slotCount, entries), hash, entries[i])
  }

  ghost predicate KeysDistinct(entries: seq<SlotEntry>) {
    forall i, j :: 0 <= i < j < |entries| ==> SlotKey(entries[i].1) != SlotKey(entries[j].1)
  }

  // ------------------------------------------------------------------
  // An accepted image with distinct pairs is a table of its merges
  // ------------------------------------------------------------------

  lemma {:induction false} PackedKeys(entries: seq<SlotEntry>)
    ensures forall k :: k in PackedOf(entries) ==>
              exists i :: 0 <= i < |entries| && SlotKey(entries[i].1) == k
                          && SlotMerged(entries[i].1) == PackedOf(entries)[k]
    ensures forall i :: 0 <= i < |entries| ==> SlotKey(entries[i].1) in PackedOf(entries)
  {
    hide SlotKey, SlotMerged;
    if entries != [] {
      var n := |entries| - 1;
      var before := entries[..n];
      PackedKeys(before);
      forall k | k in PackedOf(entries)
        ensures exists i :: 0 <= i < |entries| && SlotKey(entries[i].1) == k
                            && SlotMerged(entries[i].1) == PackedOf(entries)[k]
      {
        if k == SlotKey(entries[n].1) {
          assert SlotKey(entries[n].1) == k;
        } else {
          var i :| 0 <= i < n && SlotKey(before[i].1) == k && SlotMerged(before[i].1) == PackedOf(before)[k];
          assert entries[i] == before[i];
        }
      }
      forall i | 0 <= i < |entries|
        ensures SlotKey(entries[i].1) in PackedOf(entries)
      {
        assert i < n ==> before[i] == entries[i];
      }
    }
  }

  /** Entries with in-range ids describe one merge map, packed, plain and as a grid. */
  lemma {:induction false} ImageMaps(entries: seq<SlotEntry>, n: nat, vocabLen: nat)
    requires EntriesOk(n, entries, vocabLen) && vocabLen <= ID_LIMIT
    ensures KeyMap(MergesOf(entries), PackedOf(entries)) && Grid(GridOf(entries), MergesOf(entries))
  {
    if entries != [] {
      hide KeyMap, Grid, SlotKey, SlotMerged, PackKey, PackSlot, GridAfter;
      var k := |entries| - 1;
      var before, e := entries[..k], entries[k];
      EntriesPrefix(entries, k, n, vocabLen);
      ImageMaps(before, n, vocabLen);
      assert EntryOk(Written(n, entries[..k]), e, vocabLen);
      Repacked(e.1);
      KeyMapInsert(MergesOf(before), PackedOf(before), Left(e.1), Right(e.1), SlotMerged(e.1));
      GridStep(GridOf(before), MergesOf(before), Left(e.1), Right(e.1), SlotMerged(e.1));
    } else {
      EmptyMaps();
    }
  }

  lemma EmptyMaps()
    ensures KeyMap(map[], map[]) && Grid(seq(DENSE * DENSE, _ => U32_MAX), map[])
  {
  }

  lemma GridStep(dense: seq<nat>, merges: map<Pair, nat>, a: nat, b: nat, merged: nat)
    requires Grid(dense, merges)
    ensures |dense| == DENSE * DENSE && Grid(GridAfter(dense, a, b, merged), merges[(a, b) := merged])
  {
    GridInsert(dense, merges, a, b, merged);
  }

  lemma EntriesPrefix(entries: seq<SlotEntry>, k: nat, n: nat, vocabLen: nat)
    requires k <= |entries| && EntriesOk(n, entries, vocabLen)
    ensures EntriesOk(n, entries[..k], vocabLen)
  {
    hide EntryOk, Written;
    var before := entries[..k];
    forall i | 0 <= i < k
      ensures EntryOk(Written(n, before[..i]), before[i], vocabLen)
    {
      assert before[..i] == entries[..i];
    }
  }

  /** The slots hold exactly the entries. */
  ghost predicate Holds(slots: seq<nat>, entries: seq<SlotEntry>) {
    && (forall i :: 0 <= i < |entries| ==> entries[i].0 < |slots| && slots[entries[i].0] == entries[i].1 != U64_MAX)
    && forall p :: 0 <= p < |slots| && slots[p] != U64_MAX ==> (p, slots[p]) in entries
  }

  lemma HoldsStep(slots: seq<nat>, before: seq<SlotEntry>, e: SlotEntry)
    requires Holds(slots, before) && e.0 < |slots| && slots[e.0] == U64_MAX && e.1 != U64_MAX
    ensures Holds(slots[e.0 := e.1], before + [e])
  {
    var after, all := slots[e.0 := e.1], before + [e];
    forall p | 0 <= p < |after| && after[p] != U64_MAX
      ensures (p, after[p]) in all
    {
      if p == e.0 {
        assert all[|before|] == (p, after[p]);
      } else {
        var i :| 0 <= i < |before| && before[i] == (p, slots[p]);
        assert all[i] == (p, after[p]);
      }
    }
  }

  /** Written slots hold exactly the entries. */
  lemma {:induction false} WrittenHolds(entries: seq<SlotEntry>, n: nat, vocabLen: nat)
    requires EntriesOk(n, entries, vocabLen)
    ensures Holds(Written(n, entries), entries)
  {
    hide Holds;
    if entries == [] {
      NothingHeld(n);
    } else {
      var k := |entries| - 1;
      EntriesPrefix(entries, k, n, vocabLen);
      WrittenHolds(entries[..k], n, vocabLen);
      assert EntryOk(Written(n, entries[..k]), entries[k], vocabLen);
      HoldsStep(Written(n, entries[..k]), entries[..k], entries[k]);
      assert entries == entries[..k] + [entries[k]];
    }
  }

  lemma NothingHeld(n: nat)
    ensures Holds(EmptySlots(n), [])
  {
  }

  /** Storing a new key in a free cell keeps the represented map in step. */
  lemma RepresentsStore(cells: seq<Cell<nat, nat>>, m: map<nat, nat>, k: nat, v: nat, p: nat)
    requires p < |cells| && cells[p].Free? && Represents(cells, m) && k !in m
    ensures Represents(cells[p := Cell(k, v)], m[k := v])
  {
    var after := cells[p := Cell(k, v)];
    var bigger := m[k := v];
    forall j | j in bigger
      ensures Cell(j, bigger[j]) in after
    {
      if j == k {
        assert after[p] == Cell(k, v);
      } else {
        var q :| 0 <= q < |cells| && cells[q] == Cell(j, m[j]);
        assert after[q] == cells[q];
      }
    }
  }

  /** With distinct keys the written slots represent the packed map, one merge a slot. */
  lemma {:induction false} WrittenRepresents(entries: seq<SlotEntry>, n: nat, vocabLen: nat)
    requires EntriesOk(n, entries, vocabLen) && KeysDistinct(entries)
    ensures Represents(Cells(Written(n, entries)), PackedOf(entries))
    ensures Occupied(Cells(Written(n, entries))) == |entries| == |MergesOf(entries)|
  {
    hide SlotKey, SlotMerged, Occupied, Represents;
    if entries == [] {
      NothingWritten(n);
    } else {
      var k := |entries| - 1;
      var before, e := entries[..k], entries[k];
      EntriesPrefix(entries, k, n, vocabLen);
      WrittenRepresents(before, n, vocabLen);
      assert EntryOk(Written(n, entries[..k]), e, vocabLen);
      var slots := Written(n, before);
      var cell := Cell(SlotKey(e.1), SlotMerged(e.1));
      assert Cells(slots[e.0 := e.1]) == Cells(slots)[e.0 := cell];
      PackedKeys(before);
      NewKey(before, e);
      RepresentsStore(Cells(slots), PackedOf(before), SlotKey(e.1), SlotMerged(e.1), e.0);
      OccupiedUpdate(Cells(slots), e.0, cell);
    }
  }

  /** Every entry takes a slot of its own, repeated pair or not. */
  lemma {:induction false} WrittenOccupied(entries: seq<SlotEntry>, n: nat, vocabLen: nat)
    requires EntriesOk(n, entries, vocabLen)
    ensures Occupied(Cells(Written(n, entries))) == |entries|
  {
    hide SlotKey, SlotMerged, Occupied;
    if entries == [] {
      NothingWritten(n);
    } else {
      var k := |entries| - 1;
      var slots := Written(n, entries[..k]);
      EntriesPrefix(entries, k, n, vocabLen);
      WrittenOccupied(entries[..k], n, vocabLen);
      assert EntryOk(Written(n, entries[..k]), entries[k], vocabLen);
      var cell := AsCell(entries[k].1);
      assert Cells(slots[entries[k].0 := entries[k].1]) == Cells(slots)[entries[k].0 := cell];
      OccupiedUpdate(Cells(slots), entries[k].0, cell);
    }
  }

  lemma NothingWritten(n: nat)
    ensures Represents(Cells(EmptySlots(n)), map[]) && Occupied(Cells(EmptySlots(n))) == 0
  {
    var cells := Cells(EmptySlots(n));
    NoneOccupied(cells);
  }

  /** An entry whose key is new adds a new pair. */
  lemma NewKey(before: seq<SlotEntry>, e: SlotEntry)
    requires KeysDistinct(before + [e])
    ensures SlotKey(e.1) !in PackedOf(before) && (Left(e.1), Right(e.1)) !in MergesOf(before)
  {
    hide SlotKey;
    PackedKeys(before);
    var all := before + [e];
    forall i | 0 <= i < |before|
      ensures SlotKey(before[i].1) != SlotKey(e.1)
    {
      assert all[i] == before[i] && all[|before|] == e;
    }
    NewPair(before, e);
  }

  lemma {:induction false} NewPair(before: seq<SlotEntry>, e: SlotEntry)
    requires forall i :: 0 <= i < |before| ==> SlotKey(before[i].1) != SlotKey(e.1)
    ensures (Left(e.1), Right(e.1)) !in MergesOf(before)
  {
    if before != [] {
      NewPair(before[..|before| - 1], e);
      Repacked(before[|before| - 1].1);
      Repacked(e.1);
    }
  }

  lemma HeldIsReachable(slots: seq<nat>, entries: seq<SlotEntry>, hash: nat -> nat, q: nat)
    requires Holds(slots, entries) && q < |slots| && slots[q] != U64_MAX
    requires forall i :: 0 <= i < |entries| && entries[i].0 < |slots| ==> Reachable(slots, hash, entries[i])
    ensures Reachable(slots, hash, (q, slots[q]))
  {
    hide Reachable;
    var i :| 0 <= i < |entries| && entries[i] == (q, slots[q]);
  }

  lemma HeldAreDistinct(slots: seq<nat>, entries: seq<SlotEntry>)
    requires Holds(slots, entries) && KeysDistinct(entries)
    ensures DistinctKeys(Cells(slots))
  {
    hide SlotKey, SlotMerged;
    var cells := Cells(slots);
    forall p, q | 0 <= p < q < |cells| && cells[p].Cell? && cells[q].Cell?
      ensures cells[p].key != cells[q].key
    {
      var i :| 0 <= i < |entries| && entries[i] == (p, slots[p]);
      var j :| 0 <= j < |entries| && entries[j] == (q, slots[q]);
    }
  }

  /** Slots whose entries are all reachable chain every key to its home. */
  lemma ReachableChains(slots: seq<nat>, hash: nat -> nat)
    requires |slots| > 0
    requires forall q :: 0 <= q < |slots| && slots[q] != U64_MAX ==> Reachable(slots, hash, (q, slots[q]))
    ensures Chained(Cells(slots), Home(hash, |slots|))
    ensures forall p :: 0 <= p < |slots| && slots[p] != U64_MAX ==>
              Dist(|slots|, Home(hash, |slots|)(SlotKey(slots[p])), p) <= MAX_DISPLACEMENT
  {
    hide SlotKey, SlotMerged;
    var n := |slots|;
    forall q, p | 0 <= q < n && 0 <= p < n && slots[q] != U64_MAX
                  && Dist(n, Home(hash, n)(SlotKey(slots[q])), p) < Dist(n, Home(hash, n)(SlotKey(slots[q])), q)
      ensures slots[p] != U64_MAX
    {
      assert Reachable(slots, hash, (q, slots[q]));
    }
    forall p | 0 <= p < n && slots[p] != U64_MAX
      ensures Dist(n, Home(hash, n)(SlotKey(slots[p])), p) <= MAX_DISPLACEMENT
    {
      assert Reachable(slots, hash, (p, slots[p]));
    }
  }

  /** The flat level of an accepted image with distinct pairs. */
  lemma ImageIsFlat(slotCount: nat, entries: seq<SlotEntry>, vocabLen: nat, hash: nat -> nat)
    requires Importable(slotCount, entries, vocabLen, hash) && KeysDistinct(entries)
    ensures Flat(Written(slotCount, entries), hash, PackedOf(entries))
  {
    hide Occupied, Represents, SlotKey, SlotMerged, Written, Reachable, Holds, KeysDistinct, Chained, DistinctKeys;
    var slots := Written(slotCount, entries);
    WrittenHolds(entries, slotCount, vocabLen);
    WrittenRepresents(entries, slotCount, vocabLen);
    HeldAreDistinct(slots, entries);
    forall q | 0 <= q < |slots| && slots[q] != U64_MAX
      ensures Reachable(slots, hash, (q, slots[q]))
    {
      HeldIsReachable(slots, entries, hash, q);
    }
    ReachableChains(slots, hash);
  }

  // ------------------------------------------------------------------
  // What an accepted image answers when a pair is repeated
  // ------------------------------------------------------------------

  /** No two slots hold entries of one image twice. */
  lemma SlotsDiffer(entries: seq<SlotEntry>, n: nat, vocabLen: nat, i: nat, j: nat)
    requires EntriesOk(n, entries, vocabLen) && i < j < |entries|
    ensures entries[i].0 != entries[j].0
  {
    hide Written;
    EntriesPrefix(entries, j, n, vocabLen);
    WrittenHolds(entries[..j], n, vocabLen);
    assert entries[..j][i] == entries[i];
    assert EntryOk(Written(n, entries[..j]), entries[j], vocabLen);
  }

  /** A repeated pair leaves slots that no merge map fits. */
  lemma RepeatedIsNotFlat(entries: seq<SlotEntry>, n: nat, vocabLen: nat, hash: nat -> nat, packed: map<nat, nat>)
    requires EntriesOk(n, entries, vocabLen) && !KeysDistinct(entries)
    ensures !Flat(Written(n, entries), hash, packed)
  {
    hide SlotKey, SlotMerged, Written, EntriesOk;
    var slots := Written(n, entries);
    var i, j :| 0 <= i < j < |entries| && !(SlotKey(entries[i].1) != SlotKey(entries[j].1));
    SlotsDiffer(entries, n, vocabLen, i, j);
    WrittenHolds(entries, n, vocabLen);
    var p, q := entries[i].0, entries[j].0;
    assert Cells(slots)[p] == AsCell(slots[p]) && Cells(slots)[q] == AsCell(slots[q]);
  }

  /** Entry `i` is the one of its pair that a search meets first. */
  ghost predicate Nearest(n: nat, entries: seq<SlotEntry>, hash: nat -> nat, i: nat): (near: bool)
    ensures near ==> i < |entries|
  {
    && i < |entries| && entries[i].0 < n
    && forall j :: 0 <= j < |entries| && entries[j].0 < n && SlotKey(entries[j].1) == SlotKey(entries[i].1) ==>
         Dist(n, Home(hash, n)(SlotKey(entries[i].1)), entries[i].0)
         <= Dist(n, Home(hash, n)(SlotKey(entries[i].1)), entries[j].0)
  }

  /** Entry `j` is the one of its pair that the image lists last. */
  ghost predicate Latest(entries: seq<SlotEntry>, j: nat): (last: bool)
    ensures last ==> j < |entries|
  {
    j < |entries| && forall i :: j < i < |entries| ==> SlotKey(entries[i].1) != SlotKey(entries[j].1)
  }

  predicate OnGrid(packed: nat) {
    Left(packed) < DENSE && Right(packed) < DENSE
  }

  /** Beyond the grid, the first entry a search meets carries the id its pair is listed with last. */
  ghost predicate NearestIsLatest(n: nat, entries: seq<SlotEntry>, hash: nat -> nat) {
    forall i: nat, j: nat ::
      (&& Nearest(n, entries, hash, i) && Latest(entries, j)
       && SlotKey(entries[i].1) == SlotKey(entries[j].1) && !OnGrid(entries[i].1))
      ==> SlotMerged(entries[i].1) == SlotMerged(entries[j].1)
  }

  /** The search answers with the nearest entry. */
  lemma NearestAnswers(n: nat, entries: seq<SlotEntry>, vocabLen: nat, hash: nat -> nat, i: nat)
    requires Importable(n, entries, vocabLen, hash) && Nearest(n, entries, hash, i)
    ensures var key := SlotKey(entries[i].1);
            Probe(Written(n, entries), Home(hash, n)(key), 0, key) == SlotMerged(entries[i].1)
  {
    hide SlotKey, SlotMerged, Written, EntriesOk, Probe;
    var slots, p := Written(n, entries), entries[i].0;
    var key := SlotKey(entries[i].1);
    var home := Home(hash, n)(key);
    WrittenHolds(entries, n, vocabLen);
    assert Reachable(slots, hash, entries[i]);
    forall q | 0 <= q < n && Dist(n, home, q) < Dist(n, home, p)
      ensures slots[q] != U64_MAX && SlotKey(slots[q]) != key
    {
      assert (q, slots[q]) in entries;
    }
    ProbeFinds(slots, home, 0, key, p);
  }

  lemma NoEntryAnswers(n: nat, entries: seq<SlotEntry>, vocabLen: nat, hash: nat -> nat, a: nat, b: nat)
    requires Importable(n, entries, vocabLen, hash) && a < ID_LIMIT && b < ID_LIMIT
    requires forall i :: 0 <= i < |entries| ==> SlotKey(entries[i].1) != PackKey(a, b)
    ensures Probe(Written(n, entries), Home(hash, n)(PackKey(a, b)), 0, PackKey(a, b)) == U32_MAX
  {
    PackSlotExact(a, b, 0);
    hide SlotKey, SlotMerged, PackKey, Written, EntriesOk, Reachable;
    var slots := Written(n, entries);
    WrittenHolds(entries, n, vocabLen);
    forall p | 0 <= p < |slots|
      ensures SlotKey(slots[p]) != PackKey(a, b)
    {
      if slots[p] != U64_MAX {
        var i :| 0 <= i < |entries| && entries[i] == (p, slots[p]);
      }
    }
    ProbeMisses(slots, Home(hash, n)(PackKey(a, b)), 0, PackKey(a, b));
  }

  /** The merge map says what the latest entry of a pair says. */
  lemma {:induction false} LatestSays(entries: seq<SlotEntry>, j: nat)
    requires Latest(entries, j)
    ensures var p := (Left(entries[j].1), Right(entries[j].1));
            p in MergesOf(entries) && MergesOf(entries)[p] == SlotMerged(entries[j].1)
  {
    hide SlotMerged, SlotKey;
    var n := |entries| - 1;
    if j < n {
      assert entries[..n][j] == entries[j];
      LatestSays(entries[..n], j);
      OtherPair(entries[n].1, entries[j].1);
    }
  }

  lemma OtherPair(x: nat, y: nat)
    requires SlotKey(x) != SlotKey(y)
    ensures (Left(x), Right(x)) != (Left(y), Right(y))
  {
    Repacked(x);
    Repacked(y);
  }

  lemma {:induction false} NearestExists(n: nat, entries: seq<SlotEntry>, hash: nat -> nat, i: nat) returns (k: nat)
    requires n > 0 && i < |entries| && forall j :: 0 <= j < |entries| ==> entries[j].0 < n
    ensures Nearest(n, entries, hash, k) && SlotKey(entries[k].1) == SlotKey(entries[i].1)
    decreases Dist(n, Home(hash, n)(SlotKey(entries[i].1)), entries[i].0)
  {
    hide SlotKey;
    if Nearest(n, entries, hash, i) {
      k := i;
    } else {
      var key := SlotKey(entries[i].1);
      var j :| 0 <= j < |entries| && SlotKey(entries[j].1) == key
               && Dist(n, Home(hash, n)(key), entries[j].0) < Dist(n, Home(hash, n)(key), entries[i].0);
      k := NearestExists(n, entries, hash, j);
    }
  }

  lemma {:induction false} LatestExists(entries: seq<SlotEntry>, i: nat) returns (k: nat)
    requires i < |entries|
    ensures Latest(entries, k) && SlotKey(entries[k].1) == SlotKey(entries[i].1)
    decreases |entries| - i
  {
    hide SlotKey;
    if Latest(entries, i) {
      k := i;
    } else {
      var j :| i < j < |entries| && SlotKey(entries[j].1) == SlotKey(entries[i].1);
      k := LatestExists(entries, j);
    }
  }

  lemma SlotsOnRing(entries: seq<SlotEntry>, n: nat, vocabLen: nat)
    requires EntriesOk(n, entries, vocabLen)
    ensures forall i :: 0 <= i < |entries| ==> entries[i].0 < n
  {
    hide Written;
    forall i | 0 <= i < |entries|
      ensures entries[i].0 < n
    {
      assert EntryOk(Written(n, entries[..i]), entries[i], vocabLen);
    }
  }

  /** The imported table answers pair `(a, b)` by the merges of the image. */
  ghost predicate SaysItsMerge(n: nat, entries: seq<SlotEntry>, hash: nat -> nat, a: nat, b: nat) {
    n > 0 && Answer(Written(n, entries), GridOf(entries), hash, a, b) == RankIn(MergesOf(entries), a, b)
  }

  /**
   An accepted image answers every pair by its merges if and only if, beyond the grid, the
   entry of each pair nearest to its home carries the id listed last.
   */
  lemma ImageAnswers(n: nat, entries: seq<SlotEntry>, vocabLen: nat, hash: nat -> nat)
    requires Importable(n, entries, vocabLen, hash)
    ensures (forall a: nat, b: nat :: a < ID_LIMIT && b < ID_LIMIT ==> SaysItsMerge(n, entries, hash, a, b))
            <==> NearestIsLatest(n, entries, hash)
  {
    hide Importable, SaysItsMerge, NearestIsLatest, SlotKey, SlotMerged, PackKey, Left, Right;
    if NearestIsLatest(n, entries, hash) {
      forall a: nat, b: nat | a < ID_LIMIT && b < ID_LIMIT
        ensures SaysItsMerge(n, entries, hash, a, b)
      {
        PairIsSaid(n, entries, vocabLen, hash, a, b);
      }
    }
    if forall a: nat, b: nat :: a < ID_LIMIT && b < ID_LIMIT ==> SaysItsMerge(n, entries, hash, a, b) {
      AllSaid(n, entries, vocabLen, hash);
    }
  }

  lemma AllSaid(n: nat, entries: seq<SlotEntry>, vocabLen: nat, hash: nat -> nat)
    requires Importable(n, entries, vocabLen, hash)
    requires forall a: nat, b: nat :: a < ID_LIMIT && b < ID_LIMIT ==> SaysItsMerge(n, entries, hash, a, b)
    ensures NearestIsLatest(n, entries, hash)
  {
    hide Importable, SaysItsMerge, SlotKey, SlotMerged, OnGrid, Nearest, Latest;
    forall i: nat, j: nat | Nearest(n, entries, hash, i) && Latest(entries, j)
                            && SlotKey(entries[i].1) == SlotKey(entries[j].1) && !OnGrid(entries[i].1)
      ensures SlotMerged(entries[i].1) == SlotMerged(entries[j].1)
    {
      IdsInRange(n, entries, vocabLen, hash, i);
      assert SaysItsMerge(n, entries, hash, Left(entries[i].1), Right(entries[i].1));
      BothSay(n, entries, vocabLen, hash, i, j);
    }
  }

  lemma IdsInRange(n: nat, entries: seq<SlotEntry>, vocabLen: nat, hash: nat -> nat, i: nat)
    requires Importable(n, entries, vocabLen, hash) && Nearest(n, entries, hash, i)
    ensures Left(entries[i].1) < ID_LIMIT && Right(entries[i].1) < ID_LIMIT
  {
    assert EntryOk(Written(n, entries[..i]), entries[i], vocabLen);
  }

  /** What the search and what the merge map say of a pair that is listed. */
  lemma BothSay(n: nat, entries: seq<SlotEntry>, vocabLen: nat, hash: nat -> nat, i: nat, j: nat)
    requires Importable(n, entries, vocabLen, hash) && Nearest(n, entries, hash, i) && Latest(entries, j)
    requires SlotKey(entries[i].1) == SlotKey(entries[j].1) && !OnGrid(entries[i].1)
    ensures SaysItsMerge(n, entries, hash, Left(entries[i].1), Right(entries[i].1))
            <==> SlotMerged(entries[i].1) == SlotMerged(entries[j].1)
  {
    Repacked(entries[i].1);
    NearestAnswers(n, entries, vocabLen, hash, i);
    LatestSays(entries, j);
    assert Left(entries[i].1) == Left(entries[j].1) && Right(entries[i].1) == Right(entries[j].1);
    hide SlotKey, SlotMerged, Left, Right, PackKey, Importable, Probe, MergesOf, Written;
  }

  lemma PairIsSaid(n: nat, entries: seq<SlotEntry>, vocabLen: nat, hash: nat -> nat, a: nat, b: nat)
    requires Importable(n, entries, vocabLen, hash) && NearestIsLatest(n, entries, hash)
    requires a < ID_LIMIT && b < ID_LIMIT
    ensures SaysItsMerge(n, entries, hash, a, b)
  {
    ImageMaps(entries, n, vocabLen);
    if !(a < DENSE && b < DENSE) {
      if exists i :: 0 <= i < |entries| && SlotKey(entries[i].1) == PackKey(a, b) {
        var i :| 0 <= i < |entries| && SlotKey(entries[i].1) == PackKey(a, b);
        ListedIsSaid(n, entries, vocabLen, hash, a, b, i);
      } else {
        NoEntryAnswers(n, entries, vocabLen, hash, a, b);
        PairNotListed(entries, a, b);
      }
    }
  }

  lemma ListedIsSaid(n: nat, entries: seq<SlotEntry>, vocabLen: nat, hash: nat -> nat, a: nat, b: nat, i: nat)
    requires Importable(n, entries, vocabLen, hash) && NearestIsLatest(n, entries, hash)
    requires a < ID_LIMIT && b < ID_LIMIT && !(a < DENSE && b < DENSE)
    requires i < |entries| && SlotKey(entries[i].1) == PackKey(a, b)
    ensures SaysItsMerge(n, entries, hash, a, b)
  {
    PackKeyInjective(a, b, a, b);
    SlotsOnRing(entries, n, vocabLen);
    hide SlotKey, SlotMerged, Importable, Nearest, Latest, SaysItsMerge;
    var near := NearestExists(n, entries, hash, i);
    var last := LatestExists(entries, i);
    assert Left(entries[near].1) == a && Right(entries[near].1) == b;
    BothSay(n, entries, vocabLen, hash, near, last);
  }

  lemma {:induction false} PairNotListed(entries: seq<SlotEntry>, a: nat, b: nat)
    requires forall i :: 0 <= i < |entries| ==> SlotKey(entries[i].1) != PackKey(a, b)
    ensures (a, b) !in MergesOf(entries)
  {
    hide SlotKey, SlotMerged;
    if entries != [] {
      PairNotListed(entries[..|entries| - 1], a, b);
      Repacked(entries[|entries| - 1].1);
    }
  }

  // ------------------------------------------------------------------
  // Importing
  // ------------------------------------------------------------------

  lemma EntriesGrow(entries: seq<SlotEntry>, k: nat, n: nat, vocabLen: nat)
    requires k < |entries| && EntriesOk(n, entries[..k], vocabLen)
    requires EntryOk(Written(n, entries[..k]), entries[k], vocabLen)
    ensures EntriesOk(n, entries[..k + 1], vocabLen)
    ensures Written(n, entries[..k + 1]) == Written(n, entries[..k])[entries[k].0 := entries[k].1]
    ensures GridOf(entries[..k + 1])
            == GridAfter(GridOf(entries[..k]), Left(entries[k].1), Right(entries[k].1), SlotMerged(entries[k].1))
  {
    assert entries[k].0 < n;
    hide EntryOk, GridAfter;
    var before, after := entries[..k], entries[..k + 1];
    assert after[..k] == before;
    forall i | 0 <= i < k + 1
      ensures EntryOk(Written(n, after[..i]), after[i], vocabLen)
    {
      assert i < k ==> after[..i] == before[..i] && after[i] == before[i];
    }
  }

  /** Write one entry of an image into a table under construction. */
  method WriteEntry(table: PairRankTable, entries: seq<SlotEntry>, k: nat, vocabLen: nat) returns (ok: bool)
    requires k < |entries| && table.slots != table.dense && EntriesOk(table.slots.Length, entries[..k], vocabLen)
    requires table.slots[..] == Written(table.slots.Length, entries[..k]) && table.dense[..] == GridOf(entries[..k])
    modifies table.slots, table.dense
    ensures ok <==> EntryOk(Written(table.slots.Length, entries[..k]), entries[k], vocabLen)
    ensures ok ==> EntriesOk(table.slots.Length, entries[..k + 1], vocabLen)
    ensures ok ==> table.slots[..] == Written(table.slots.Length, entries[..k + 1])
    ensures ok ==> table.dense[..] == GridOf(entries[..k + 1])
  {
    hide EntriesOk, Written, GridOf;
    var slot, packed := entries[k].0, entries[k].1;
    ghost var was := table.slots[..];
    if slot >= table.slots.Length || table.slots[slot] != U64_MAX || packed == U64_MAX {
      return false;
    }
    var left, right, merged := Left(packed), Right(packed), SlotMerged(packed);
    if left >= vocabLen || right >= vocabLen || merged >= vocabLen {
      return false;
    }
    EntriesGrow(entries, k, table.slots.Length, vocabLen);
    hide Left, Right, SlotMerged;
    ghost var newDense := GridAfter(table.dense[..], left, right, merged);
    table.slots[slot] := packed;
    if left < DENSE && right < DENSE {
      table.dense[GridIndex(left, right)] := merged;
    }
    assert table.slots[..] == was[slot := packed] && table.dense[..] == newDense;
    ok := true;
  }

  /** Walk from an entry's home; it must meet only occupied slots, and not too many. */
  method CheckReachable(table: PairRankTable, e: SlotEntry) returns (ok: bool)
    requires e.0 < table.slots.Length
    ensures ok <==> Reachable(table.slots[..], table.hash, e)
  {
    hide SlotKey;
    var n := table.slots.Length;
    var home: nat := Home(table.hash, n)(SlotKey(e.1));
    var index: nat, displacement: nat := home, 0;
    while index != e.0
      invariant index < n && displacement == Dist(n, home, index) <= Dist(n, home, e.0)
      invariant displacement <= MAX_DISPLACEMENT
      invariant forall p :: 0 <= p < n && Dist(n, home, p) < displacement ==> table.slots[p] != U64_MAX
      decreases n - displacement
    {
      AtDist(n, home, index);
      AtDist(n, home, e.0);
      if table.slots[index] == U64_MAX || displacement >= MAX_DISPLACEMENT {
        assert table.slots[..][index] == table.slots[index];
        return false;
      }
      forall p | 0 <= p < n && Dist(n, home, p) < displacement + 1
        ensures table.slots[p] != U64_MAX
      {
        AtDist(n, home, p);
      }
      NextIsOneStep(n, home, index);
      index := NextOnRing(n, index);
      displacement := displacement + 1;
    }
    ok := true;
  }

  /** Every entry must be found by a search for its key. */
  method CheckLayout(table: PairRankTable, entries: seq<SlotEntry>, ghost vocabLen: nat) returns (ok: bool)
    requires EntriesOk(table.slots.Length, entries, vocabLen)
    ensures ok <==> forall i :: 0 <= i < |entries| && entries[i].0 < table.slots.Length ==>
                      Reachable(table.slots[..], table.hash, entries[i])
  {
    hide Reachable, EntriesOk;
    for k := 0 to |entries|
      invariant forall i :: 0 <= i < k && entries[i].0 < table.slots.Length ==>
                  Reachable(table.slots[..], table.hash, entries[i])
    {
      SlotInRing(entries, k, table.slots.Length, vocabLen);
      var reached := CheckReachable(table, entries[k]);
      if !reached {
        return false;
      }
    }
    ok := true;
  }

  lemma ImageStarts(n: nat)
    ensures Written(n, []) == EmptySlots(n) && GridOf([]) == seq(DENSE * DENSE, _ => U32_MAX) && EntriesOk(n, [], 0)
    ensures forall vocabLen: nat :: EntriesOk(n, [], vocabLen)
  {
  }

  /**
   Rebuild a table from an image. Exactly the importable images are accepted, and one
   becomes a valid table of its merges if and only if no pair is repeated.
   */
  method FromPrebuiltSlots(slotCount: nat, entries: seq<SlotEntry>, vocabLen: nat, hash: nat -> nat)
    returns (r: Option<PairRankTable>)
    ensures r.Some? <==> Importable(slotCount, entries, vocabLen, hash)
    ensures r.Some? ==> fresh(r.value) && r.value.hash == hash && r.value.slots[..] == Written(slotCount, entries)
    ensures r.Some? ==> r.value.dense[..] == GridOf(entries) && r.value.merges == MergesOf(entries)
    ensures r.Some? ==> r.value.slots.Length > 0 && HasFree(r.value.slots[..])
    ensures r.Some? ==> (r.value.Valid() <==> KeysDistinct(entries))
    ensures r.Some? && KeysDistinct(entries) ==> |r.value.merges| < r.value.slots.Length
  {
    hide EntryOk, Written, GridOf, Reachable, KeyMap, Flat, Grid, Occupied, PowerOfTwo, KeysDistinct;
    if vocabLen > ID_LIMIT {
      return None;
    }
    var table := new PairRankTable(|entries|, hash);
    var n := table.slots.Length;
    if n != slotCount {
      return None;
    }
    ImageStarts(n);
    assert entries[..0] == [];
    assert table.slots[..] == EmptySlots(n) && table.dense[..] == seq(DENSE * DENSE, _ => U32_MAX);
    for k := 0 to |entries|
      invariant EntriesOk(n, entries[..k], vocabLen)
      invariant table.slots[..] == Written(n, entries[..k]) && table.dense[..] == GridOf(entries[..k])
    {
      var ok := WriteEntry(table, entries, k, vocabLen);
      if !ok {
        return None;
      }
    }
    assert entries[..|entries|] == entries;
    var sound := CheckLayout(table, entries, vocabLen);
    if !sound {
      return None;
    }
    table.merges, table.packed := MergesOf(entries), PackedOf(entries);
    ImageIsTable(slotCount, entries, vocabLen, hash);
    r := Some(table);
  }

  lemma SlotInRing(entries: seq<SlotEntry>, k: nat, n: nat, vocabLen: nat)
    requires k < |entries| && EntriesOk(n, entries, vocabLen)
    ensures entries[k].0 < n
  {
    hide Written;
    assert EntryOk(Written(n, entries[..k]), entries[k], vocabLen);
  }

  lemma ImageIsTable(slotCount: nat, entries: seq<SlotEntry>, vocabLen: nat, hash: nat -> nat)
    requires Importable(slotCount, entries, vocabLen, hash)
    ensures KeyMap(MergesOf(entries), PackedOf(entries)) && Grid(GridOf(entries), MergesOf(entries))
    ensures KeysDistinct(entries) <==> Flat(Written(slotCount, entries), hash, PackedOf(entries))
    ensures KeysDistinct(entries) ==> Occupied(Cells(Written(slotCount, entries))) == |MergesOf(entries)| < slotCount
    ensures HasFree(Written(slotCount, entries))
  {
    hide KeyMap, Grid, Flat, Occupied, KeysDistinct, Written, Reachable, EntryOk;
    ImageMaps(entries, slotCount, vocabLen);
    WrittenOccupied(entries, slotCount, vocabLen);
    SomeFree(Written(slotCount, entries));
    if KeysDistinct(entries) {
      ImageIsFlat(slotCount, entries, vocabLen, hash);
      WrittenRepresents(entries, slotCount, vocabLen);
    } else {
      RepeatedIsNotFlat(entries, slotCount, vocabLen, hash, PackedOf(entries));
    }
  }

  /** Pair (0, 2048), just beyond the grid, merging to `id`. */
  function Beyond(id: nat): nat {
    PackSlot(PackKey(0, DENSE), id)
  }

  /** Whatever the hash: the pair at its home with id 1, and listed again in the next slot with id 2. */
  function Repeating(hash: nat -> nat): seq<SlotEntry> {
    var h: nat := hash(DENSE) % 64;
    [(h, Beyond(1)), (NextOnRing(64, h), Beyond(2))]
  }

  lemma BeyondFacts()
    ensures PackKey(0, DENSE) == DENSE
    ensures forall id: nat :: id < ID_LIMIT ==>
              && SlotKey(Beyond(id)) == DENSE && SlotMerged(Beyond(id)) == id && Beyond(id) < U64_MAX
              && Left(Beyond(id)) == 0 && Right(Beyond(id)) == DENSE
  {
  }

  /**
   The importer does not notice a pair listed twice with different ids: under every hash an
   image is accepted that answers another id than the one its merges end with.
   */
  lemma RepeatedPairMisleads(hash: nat -> nat, vocabLen: nat)
    requires DENSE < vocabLen <= ID_LIMIT
    ensures Importable(64, Repeating(hash), vocabLen, hash) && !KeysDistinct(Repeating(hash))
    ensures Answer(Written(64, Repeating(hash)), GridOf(Repeating(hash)), hash, 0, DENSE) == 1
    ensures RankIn(MergesOf(Repeating(hash)), 0, DENSE) == 2
  {
    BeyondFacts();
    hide SlotKey, SlotMerged, PackKey, PackSlot, Left, Right, Beyond;
    var entries := Repeating(hash);
    var h: nat, g: nat := entries[0].0, entries[1].0;
    var a, b: SlotEntry := entries[0], entries[1];
    var one: seq<SlotEntry> := [a];
    assert entries[..0] == [] && entries[..1] == one && one[..0] == [];
    var slots := EmptySlots(64);
    var first: seq<nat> := slots[h := a.1];
    assert Written(64, one) == first && Written(64, entries) == first[g := b.1];
    assert SlotsFor(2) == 64;
    assert EntryOk(Written(64, entries[..0]), entries[0], vocabLen);
    assert EntryOk(Written(64, entries[..1]), entries[1], vocabLen);
    assert Reachable(Written(64, entries), hash, a) && Reachable(Written(64, entries), hash, b);
    assert SlotKey(entries[0].1) == SlotKey(entries[1].1) == DENSE;
    assert Home(hash, 64)(DENSE) == h;
    ProbeFinds(Written(64, entries), h, 0, DENSE, h);
    LatestSays(entries, 1);
  }

  // ------------------------------------------------------------------
  // Exporting
  // ------------------------------------------------------------------

  /** The occupied slots with their positions. */
  function Image(slots: seq<nat>): seq<SlotEntry> {
    if slots == [] then []
    else
      var n := |slots| - 1;
      Image(slots[..n]) + if slots[n] != U64_MAX then [(n, slots[n])] else []
  }

  method PrebuiltSlotImage(table: PairRankTable) returns (slotCount: nat, entries: seq<SlotEntry>)
    ensures slotCount == table.slots.Length && entries == Image(table.slots[..])
  {
    hide Image;
    slotCount, entries := table.slots.Length, [];
    assert table.slots[..0] == [];
    NoImage();
    for p := 0 to table.slots.Length
      invariant entries == Image(table.slots[..p])
    {
      ImageStep(table.slots[..], p);
      assert table.slots[..][..p] == table.slots[..p] && table.slots[..][..p + 1] == table.slots[..p + 1];
      if table.slots[p] != U64_MAX {
        entries := entries + [(p, table.slots[p])];
      }
    }
    assert table.slots[..table.slots.Length] == table.slots[..];
  }

  lemma NoImage()
    ensures Image([]) == []
  {
  }

  lemma ImageStep(slots: seq<nat>, p: nat)
    requires p < |slots|
    ensures Image(slots[..p + 1]) == Image(slots[..p]) + if slots[p] != U64_MAX then [(p, slots[p])] else []
  {
    assert slots[..p + 1][..p] == slots[..p];
  }

  /** Ids of every stored merge are below the vocabulary's length. */
  ghost predicate IdsFit(slots: seq<nat>, vocabLen: nat) {
    forall p :: 0 <= p < |slots| && slots[p] != U64_MAX ==>
      Left(slots[p]) < vocabLen && Right(slots[p]) < vocabLen && SlotMerged(slots[p]) < vocabLen
  }

  lemma OneMore(entries: seq<SlotEntry>, e: SlotEntry, n: nat, vocabLen: nat)
    requires EntriesOk(n, entries, vocabLen) && EntryOk(Written(n, entries), e, vocabLen)
    ensures EntriesOk(n, entries + [e], vocabLen)
    ensures Written(n, entries + [e]) == Written(n, entries)[e.0 := e.1]
  {
    var all := entries + [e];
    assert all[..|entries|] == entries && all[|entries|] == e && all[..|entries| + 1] == all;
    EntriesGrow(all, |entries|, n, vocabLen);
  }

  /** Writing the image of the first `p` slots restores them. */
  lemma {:induction false} ImageRestores(slots: seq<nat>, p: nat, vocabLen: nat)
    requires p <= |slots| && IdsFit(slots, vocabLen)
    ensures EntriesOk(|slots|, Image(slots[..p]), vocabLen)
    ensures Written(|slots|, Image(slots[..p])) == slots[..p] + EmptySlots(|slots| - p)
    ensures |Image(slots[..p])| == Occupied(Cells(slots[..p]))
  {
    hide Left, Right, SlotMerged, Occupied, EntriesOk, Image, Written;
    if p == 0 {
      NoImage();
      ImageStarts(|slots|);
      OccupiedNothing(Cells(slots[..0]));
      assert slots[..0] == [];
    } else {
      ImageRestores(slots, p - 1, vocabLen);
      ImageStep(slots, p - 1);
      var e: SlotEntry := (p - 1, slots[p - 1]);
      var before := Image(slots[..p - 1]);
      OccupiedLast(Cells(slots[..p - 1]), AsCell(slots[p - 1]));
      assert Cells(slots[..p]) == Cells(slots[..p - 1]) + [AsCell(slots[p - 1])];
      assert slots[..p] == slots[..p - 1] + [slots[p - 1]];
      if slots[p - 1] != U64_MAX {
        StoredFits(slots, p - 1, Written(|slots|, before), vocabLen);
        OneMore(before, e, |slots|, vocabLen);
        RestoredOne(slots, p - 1);
      } else {
        assert Image(slots[..p]) == before;
        assert slots[..p - 1] + EmptySlots(|slots| - (p - 1)) == slots[..p] + EmptySlots(|slots| - p);
      }
    }
  }

  lemma StoredFits(slots: seq<nat>, q: nat, restored: seq<nat>, vocabLen: nat)
    requires q < |slots| == |restored| && IdsFit(slots, vocabLen) && slots[q] != U64_MAX && restored[q] == U64_MAX
    ensures EntryOk(restored, (q, slots[q]), vocabLen)
  {
  }

  lemma RestoredOne(slots: seq<nat>, q: nat)
    requires q < |slots|
    ensures (slots[..q] + EmptySlots(|slots| - q))[q := slots[q]] == slots[..q + 1] + EmptySlots(|slots| - (q + 1))
  {
  }

  lemma {:induction false} OccupiedLast(cells: seq<Cell<nat, nat>>, c: Cell<nat, nat>)
    ensures Occupied(cells + [c]) == Occupied(cells) + if c.Cell? then 1 else 0
  {
    if cells == [] {
      assert (cells + [c])[1..] == [];
    } else {
      assert (cells + [c])[1..] == cells[1..] + [c];
      OccupiedLast(cells[1..], c);
    }
  }

  lemma {:induction false} ImageIsAscending(slots: seq<nat>)
    ensures forall i :: 0 <= i < |Image(slots)| ==>
              Image(slots)[i].0 < |slots| && slots[Image(slots)[i].0] == Image(slots)[i].1 != U64_MAX
    ensures forall i, j :: 0 <= i < j < |Image(slots)| ==> Image(slots)[i].0 < Image(slots)[j].0
  {
    if slots != [] {
      ImageIsAscending(slots[..|slots| - 1]);
    }
  }

  /** A table's image is importable, and says exactly the table's merges. */
  lemma ImageIsExact(slots: seq<nat>, hash: nat -> nat, merges: map<Pair, nat>, packed: map<nat, nat>, vocabLen: nat)
    requires Flat(slots, hash, packed) && KeyMap(merges, packed) && IdsFit(slots, vocabLen) && vocabLen <= ID_LIMIT
    requires |slots| == SlotsFor(|merges|) && Occupied(Cells(slots)) == |merges|
    ensures Importable(|slots|, Image(slots), vocabLen, hash) && KeysDistinct(Image(slots))
    ensures MergesOf(Image(slots)) == merges && Written(|slots|, Image(slots)) == slots
  {
    hide SlotKey, SlotMerged, Occupied, EntriesOk, KeyMap, IdsFit, Written, PackedOf, MergesOf, Image, SlotsFor,
         Reachable;
    var entries := Image(slots);
    assert slots[..|slots|] == slots;
    ImageRestores(slots, |slots|, vocabLen);
    ImageIsAscending(slots);
    forall i | 0 <= i < |entries|
      ensures Reachable(slots, hash, entries[i])
    {
      StoredIsReachable(slots, hash, packed, entries[i].0);
    }
    ImageKeysDistinct(slots, hash, packed);
    ImagePacked(slots, hash, packed, vocabLen);
    ImageMaps(entries, |slots|, vocabLen);
    KeyMapDetermines(merges, MergesOf(entries), packed);
  }

  lemma StoredIsReachable(slots: seq<nat>, hash: nat -> nat, packed: map<nat, nat>, q: nat)
    requires Flat(slots, hash, packed) && q < |slots| && slots[q] != U64_MAX
    ensures Reachable(slots, hash, (q, slots[q]))
  {
    hide SlotKey, SlotMerged;
    var n, home, cells := |slots|, Home(hash, |slots|), Cells(slots);
    forall p | 0 <= p < n && Dist(n, home(SlotKey(slots[q])), p) < Dist(n, home(SlotKey(slots[q])), q)
      ensures slots[p] != U64_MAX
    {
      assert cells[q].key == SlotKey(slots[q]);
      assert cells[p].Cell?;
    }
  }

  lemma ImageKeysDistinct(slots: seq<nat>, hash: nat -> nat, packed: map<nat, nat>)
    requires Flat(slots, hash, packed)
    ensures KeysDistinct(Image(slots))
  {
    hide SlotKey, SlotMerged, Image, Chained, Represents;
    var entries, cells := Image(slots), Cells(slots);
    ImageIsAscending(slots);
    forall i, j | 0 <= i < j < |entries|
      ensures SlotKey(entries[i].1) != SlotKey(entries[j].1)
    {
      var p, q := entries[i].0, entries[j].0;
      assert cells[p].Cell? && cells[p].key == SlotKey(entries[i].1);
      assert cells[q].Cell? && cells[q].key == SlotKey(entries[j].1);
    }
  }

  /** The image's packed pairs are the stored ones. */
  lemma ImagePacked(slots: seq<nat>, hash: nat -> nat, packed: map<nat, nat>, vocabLen: nat)
    requires Flat(slots, hash, packed) && Written(|slots|, Image(slots)) == slots
    requires EntriesOk(|slots|, Image(slots), vocabLen)
    ensures PackedOf(Image(slots)) == packed
  {
    hide SlotKey, SlotMerged, Image, Written, PackedOf, Flat, EntriesOk;
    var entries := Image(slots);
    var seen := PackedOf(entries);
    PackedKeys(entries);
    ImageIsAscending(slots);
    forall k | k in seen
      ensures k in packed && packed[k] == seen[k]
    {
      var i :| 0 <= i < |entries| && SlotKey(entries[i].1) == k && SlotMerged(entries[i].1) == seen[k];
      FlatFacts(slots, hash, packed, entries[i].0);
    }
    forall k | k in packed
      ensures k in seen
    {
      var p := StoredAt(slots, hash, packed, k);
      WrittenHolds(entries, |slots|, vocabLen);
      assert (p, slots[p]) in entries;
    }
  }

  lemma StoredAt(slots: seq<nat>, hash: nat -> nat, packed: map<nat, nat>, k: nat) returns (p: nat)
    requires Flat(slots, hash, packed) && k in packed
    ensures p < |slots| && slots[p] != U64_MAX && SlotKey(slots[p]) == k
  {
    hide SlotKey, SlotMerged;
    var cells := Cells(slots);
    p :| 0 <= p < |cells| && cells[p] == Cell(k, packed[k]);
  }

  lemma KeyMapDetermines(a: map<Pair, nat>, b: map<Pair, nat>, packed: map<nat, nat>)
    requires KeyMap(a, packed) && KeyMap(b, packed)
    ensures a == b
  {
    forall p | p in a
      ensures p in b && b[p] == a[p]
    {
      assert (p.0, p.1) in a;
      assert (p.0, p.1) in b;
    }
    forall p | p in b
      ensures p in a
    {
      assert (p.0, p.1) in b;
      assert (p.0, p.1) in a;
    }
  }

  /** Exporting a built table and importing the image gives every pair the same rank. */
  method ExportImport(table: PairRankTable, vocabLen: nat) returns (again: PairRankTable)
    requires table.Valid() && table.slots.Length == SlotsFor(|table.merges|)
    requires vocabLen <= ID_LIMIT && IdsFit(table.slots[..], vocabLen)
    ensures again.Valid() && again.merges == table.merges && again.slots[..] == table.slots[..]
    ensures |again.merges| < again.slots.Length
  {
    hide KeyMap, Flat, Grid, Occupied, PowerOfTwo, Importable, KeysDistinct, Written, Image, MergesOf, IdsFit, SlotsFor;
    var slotCount, entries := PrebuiltSlotImage(table);
    ImageIsExact(table.slots[..], table.hash, table.merges, table.packed, vocabLen);
    var imported := FromPrebuiltSlots(slotCount, entries, vocabLen, table.hash);
    again := imported.value;
  }
}

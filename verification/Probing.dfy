/**
 Open addressing with linear probing over a ring of cells: what a table keeps so
 that a search from a key's home cell finds the key or an empty cell.
 */
module Probing {
  import opened Prelude

  datatype Cell<K, V> = Free | Cell(key: K, value: V)

  /** The cell `t` steps after `h` on a ring of `n` cells. */
  function At(n: nat, h: nat, t: nat): (p: nat)
    requires h < n && t < n
    ensures p < n && Dist(n, h, p) == t
  {
    if h + t < n then h + t else h + t - n
  }

  /** How many steps lead from `h` to `p`. */
  function Dist(n: nat, h: nat, p: nat): (t: nat)
    requires h < n && p < n
    ensures t < n
  {
    if h <= p then p - h else p + n - h
  }

  lemma AtDist(n: nat, h: nat, p: nat)
    requires h < n && p < n
    ensures At(n, h, Dist(n, h, p)) == p
  {
  }

  /** The next cell on the ring: `(p + 1) & mask` for a power-of-two ring. */
  function NextOnRing(n: nat, p: nat): (q: nat)
    requires p < n
    ensures q < n
  {
    if p + 1 == n then 0 else p + 1
  }

  lemma NextIsOneStep(n: nat, h: nat, p: nat)
    requires h < n && p < n && Dist(n, h, p) + 1 < n
    ensures Dist(n, h, NextOnRing(n, p)) == Dist(n, h, p) + 1
  {
  }

  /** Every key's home is on the ring. */
  ghost predicate HomesFit<K(!new)>(home: K -> nat, n: nat) {
    forall k :: home(k) < n
  }

  /** All cells from a stored key's home up to its own cell are occupied. */
  ghost predicate Chained<K(!new), V>(cells: seq<Cell<K, V>>, home: K -> nat)
    requires HomesFit(home, |cells|)
  {
    forall q, p ::
      (&& 0 <= q < |cells| && 0 <= p < |cells| && cells[q].Cell?
       && Dist(|cells|, home(cells[q].key), p) < Dist(|cells|, home(cells[q].key), q))
      ==> cells[p].Cell?
  }

  ghost predicate DistinctKeys<K, V>(cells: seq<Cell<K, V>>) {
    forall p, q :: 0 <= p < q < |cells| && cells[p].Cell? && cells[q].Cell? ==> cells[p].key != cells[q].key
  }

  /** The cells hold exactly the pairs of `m`. */
  ghost predicate Represents<K, V>(cells: seq<Cell<K, V>>, m: map<K, V>) {
    && (forall p :: 0 <= p < |cells| && cells[p].Cell? ==> cells[p].key in m && m[cells[p].key] == cells[p].value)
    && (forall k :: k in m ==> Cell(k, m[k]) in cells)
  }

  function Occupied<K, V>(cells: seq<Cell<K, V>>): (c: nat)
    ensures c <= |cells|
  {
    if cells == [] then 0 else (if cells[0].Cell? then 1 else 0) + Occupied(cells[1..])
  }

  /** What a search table keeps between calls. */
  ghost predicate Table<K(!new), V>(cells: seq<Cell<K, V>>, home: K -> nat, m: map<K, V>) {
    HomesFit(home, |cells|) && Chained(cells, home) && DistinctKeys(cells) && Represents(cells, m)
  }

  /** The first `t` cells of the walk from `h` are occupied by other keys than `k`. */
  ghost predicate Passed<K, V>(cells: seq<Cell<K, V>>, h: nat, t: nat, k: K)
    requires h < |cells|
  {
    forall p :: 0 <= p < |cells| && Dist(|cells|, h, p) < t ==> cells[p].Cell? && cells[p].key != k
  }

  lemma {:induction false} FreeCellExists<K, V>(cells: seq<Cell<K, V>>) returns (p: nat)
    requires Occupied(cells) < |cells|
    ensures p < |cells| && cells[p].Free?
  {
    if cells[0].Free? {
      p := 0;
    } else {
      var q := FreeCellExists(cells[1..]);
      p := q + 1;
    }
  }

  lemma {:induction false} OccupiedUpdate<K, V>(cells: seq<Cell<K, V>>, p: nat, c: Cell<K, V>)
    requires p < |cells| && c.Cell?
    ensures Occupied(cells[p := c]) == Occupied(cells) + (if cells[p].Cell? then 0 else 1)
  {
    if p > 0 {
      assert cells[p := c][1..] == cells[1..][p - 1 := c];
      OccupiedUpdate(cells[1..], p - 1, c);
    } else {
      assert cells[p := c][1..] == cells[1..];
    }
  }

  /** A walk over a table with a free cell ends before it comes round. */
  lemma WalkEnds<K, V>(cells: seq<Cell<K, V>>, h: nat, t: nat, k: K)
    requires h < |cells| && Occupied(cells) < |cells| && Passed(cells, h, t, k)
    ensures t < |cells|
  {
    var p := FreeCellExists(cells);
    assert Dist(|cells|, h, p) >= t;
  }

  /** Passing one more occupied cell moves the walk one step on. */
  lemma StepPast<K, V>(cells: seq<Cell<K, V>>, h: nat, p: nat, k: K)
    requires h < |cells| && p < |cells| && Occupied(cells) < |cells|
    requires Passed(cells, h, Dist(|cells|, h, p), k) && cells[p].Cell? && cells[p].key != k
    ensures Dist(|cells|, h, NextOnRing(|cells|, p)) == Dist(|cells|, h, p) + 1
    ensures Passed(cells, h, Dist(|cells|, h, NextOnRing(|cells|, p)), k)
  {
    var n, t := |cells|, Dist(|cells|, h, p);
    forall q | 0 <= q < n && Dist(n, h, q) < t + 1
      ensures cells[q].Cell? && cells[q].key != k
    {
      if Dist(n, h, q) == t {
        AtDist(n, h, p);
        AtDist(n, h, q);
      }
    }
    WalkEnds(cells, h, t + 1, k);
    NextIsOneStep(n, h, p);
  }

  /** A free cell on the walk of an unseen key proves the key absent. */
  lemma FreeMeansAbsent<K(!new), V>(cells: seq<Cell<K, V>>, home: K -> nat, m: map<K, V>, k: K, p: nat)
    requires Table(cells, home, m) && p < |cells| && cells[p].Free?
    requires Passed(cells, home(k), Dist(|cells|, home(k), p), k)
    ensures k !in m
  {
    if k in m {
      var q :| 0 <= q < |cells| && cells[q] == Cell(k, m[k]);
      var n, h := |cells|, home(k);
      if Dist(n, h, q) == Dist(n, h, p) {
        AtDist(n, h, p);
        AtDist(n, h, q);
      }
      assert false;
    }
  }

  /** Storing a new key in the free cell its walk ends at keeps the table. */
  lemma StoreKeeps<K(!new), V>(cells: seq<Cell<K, V>>, home: K -> nat, m: map<K, V>, k: K, v: V, p: nat)
    requires Table(cells, home, m) && p < |cells| && cells[p].Free? && k !in m
    requires Passed(cells, home(k), Dist(|cells|, home(k), p), k)
    ensures Table(cells[p := Cell(k, v)], home, m[k := v])
  {
    var after := cells[p := Cell(k, v)];
    var bigger := m[k := v];
    forall key | key in bigger
      ensures Cell(key, bigger[key]) in after
    {
      if key == k {
        assert after[p] == Cell(k, v);
      } else {
        var q :| 0 <= q < |cells| && cells[q] == Cell(key, m[key]);
        assert after[q] == cells[q];
      }
    }
  }

  /** Overwriting a stored key's value keeps the table. */
  lemma OverwriteKeeps<K(!new), V>(cells: seq<Cell<K, V>>, home: K -> nat, m: map<K, V>, v: V, p: nat)
    requires Table(cells, home, m) && p < |cells| && cells[p].Cell?
    ensures Table(cells[p := Cell(cells[p].key, v)], home, m[cells[p].key := v])
    ensures cells[p].key in m
  {
    var k := cells[p].key;
    var after := cells[p := Cell(k, v)];
    var bigger := m[k := v];
    forall key | key in bigger
      ensures Cell(key, bigger[key]) in after
    {
      if key == k {
        assert after[p] == Cell(k, v);
      } else {
        var q :| 0 <= q < |cells| && cells[q] == Cell(key, m[key]);
        assert after[q] == cells[q];
      }
    }
  }

  /** A ring of free cells is the empty table. */
  lemma AllFree<K(!new), V>(cells: seq<Cell<K, V>>, home: K -> nat)
    requires HomesFit(home, |cells|) && forall p :: 0 <= p < |cells| ==> cells[p].Free?
    ensures Table(cells, home, map[]) && Occupied(cells) == 0
  {
    NoneOccupied(cells);
  }

  lemma {:induction false} NoneOccupied<K, V>(cells: seq<Cell<K, V>>)
    requires forall p :: 0 <= p < |cells| ==> cells[p].Free?
    ensures Occupied(cells) == 0
  {
    if cells != [] {
      NoneOccupied(cells[1..]);
    }
  }

  /** Powers of two, the sizes for which `& (n - 1)` is the remainder by `n`. */
  ghost predicate PowerOfTwo(n: nat) {
    n == 1 || (n > 0 && n % 2 == 0 && PowerOfTwo(n / 2))
  }

  lemma OccupiedDrop<K, V>(cells: seq<Cell<K, V>>, i: nat)
    requires i < |cells|
    ensures Occupied(cells[i..]) == (if cells[i].Cell? then 1 else 0) + Occupied(cells[i + 1..])
  {
    assert cells[i..][1..] == cells[i + 1..];
  }

  lemma OccupiedNothing<K, V>(cells: seq<Cell<K, V>>)
    requires cells == []
    ensures Occupied(cells) == 0
  {
  }

  function NextPowerOfTwo(n: nat, from: nat): (r: nat)
    requires from > 0
    ensures r >= n && r >= from
    decreases if n > from then n - from else 0
  {
    if from >= n then from else NextPowerOfTwo(n, 2 * from)
  }

  lemma DoubleIsPower(n: nat)
    requires PowerOfTwo(n)
    ensures PowerOfTwo(2 * n)
  {
    assert 2 * n / 2 == n;
  }

  lemma {:induction false} NextIsPower(n: nat, from: nat)
    requires PowerOfTwo(from)
    ensures PowerOfTwo(NextPowerOfTwo(n, from))
    decreases if n > from then n - from else 0
  {
    if from < n {
      NextIsPower(n, 2 * from);
    }
  }
}

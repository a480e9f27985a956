/**
 The heap merge loop: a min-heap of packed `(rank, position)` entries over the
 linked list. Merging leaves outdated entries in the heap; each is recognised
 when it is popped.
 */
module MergeHeap {
  import opened Prelude
  import opened Bpe
  import opened MergeLists

  const NONE: nat := U32_MAX
  const SHIFT32: nat := 0x1_0000_0000

  function Pack(rank: nat, pos: nat): nat {
    rank * SHIFT32 + pos
  }

  function PackedRank(entry: nat): nat {
    entry / SHIFT32
  }

  function PackedPosition(entry: nat): nat {
    entry % SHIFT32
  }

  /** Packed entries compare as `(rank, position)` pairs, and unpack exactly. */
  lemma PackOrder(r: nat, p: nat, r': nat, p': nat)
    requires p < SHIFT32 && p' < SHIFT32
    ensures PackedRank(Pack(r, p)) == r && PackedPosition(Pack(r, p)) == p
    ensures Pack(r, p) <= Pack(r', p') <==> r < r' || (r == r' && p <= p')
  {
  }

  /** Take one least entry off the heap. */
  method PopMin(heap: seq<nat>) returns (entry: nat, rest: seq<nat>)
    requires heap != []
    ensures entry in heap && forall e :: e in heap ==> entry <= e
    ensures multiset(heap) == multiset(rest) + multiset{entry}
    ensures |rest| == |heap| - 1
  {
    var least := 0;
    for i := 1 to |heap|
      invariant least < |heap|
      invariant forall j :: 0 <= j < i ==> heap[least] <= heap[j]
    {
      if heap[i] < heap[least] {
        least := i;
      }
    }
    entry, rest := heap[least], heap[..least] + heap[least + 1..];
    assert heap == heap[..least] + [heap[least]] + heap[least + 1..];
  }

  ghost predicate PairCovered(m: Merges, symbols: seq<Token>, live: seq<nat>, heap: seq<nat>, k: nat)
    requires Increasing(live, |symbols|) && k + 1 < |live|
  {
    var pair := (symbols[live[k]], symbols[live[k + 1]]);
    pair in m ==> Pack(m[pair].rank, live[k]) in heap
  }

  /** Every live pair that merges has its entry in the heap. */
  ghost predicate Covered(m: Merges, symbols: seq<Token>, live: seq<nat>, heap: seq<nat>)
    requires Increasing(live, |symbols|)
  {
    forall k: nat :: k + 1 < |live| ==> PairCovered(m, symbols, live, heap, k)
  }

  ghost predicate DeadHaveNoNext(next: seq<nat>, live: seq<nat>) {
    forall p :: 0 <= p < |next| && next[p] != NONE ==> p in live
  }

  /** What holds between two pops. */
  ghost predicate HeapState(m: Merges, symbols: seq<Token>, next: seq<nat>, prev: seq<nat>,
                            live: seq<nat>, heap: seq<nat>)
  {
    && |symbols| == |next|
    && Linked(next, prev, live, NONE, NONE)
    && DeadHaveNoNext(next, live)
    && (forall e :: e in heap ==> PackedPosition(e) < |symbols|)
    && Covered(m, symbols, live, heap)
  }

  /** An entry that matches no live mergeable pair can be dropped. */
  lemma DropStale(m: Merges, symbols: seq<Token>, live: seq<nat>, heap: seq<nat>, entry: nat)
    requires Increasing(live, |symbols|) && |symbols| <= SHIFT32
    requires Covered(m, symbols, live, heap + [entry])
    requires forall k: nat :: k + 1 < |live| && live[k] == PackedPosition(entry) ==>
               var pair := (symbols[live[k]], symbols[live[k + 1]]);
               pair in m ==> m[pair].rank != PackedRank(entry)
    ensures Covered(m, symbols, live, heap)
  {
    forall k: nat | k + 1 < |live|
      ensures PairCovered(m, symbols, live, heap, k)
    {
      assert PairCovered(m, symbols, live, heap + [entry], k);
      var pair := (symbols[live[k]], symbols[live[k + 1]]);
      if pair in m {
        PackOrder(m[pair].rank, live[k], 0, 0);
      }
    }
  }

  /** A least entry that matches a live pair names the pair the rule merges next. */
  lemma LeastIsNext(m: Merges, symbols: seq<Token>, live: seq<nat>, heap: seq<nat>, entry: nat, k: nat)
    requires Increasing(live, |symbols|) && |symbols| <= SHIFT32
    requires Covered(m, symbols, live, heap)
    requires forall e :: e in heap ==> entry <= e
    requires k + 1 < |live| && (symbols[live[k]], symbols[live[k + 1]]) in m
    requires entry == Pack(m[(symbols[live[k]], symbols[live[k + 1]])].rank, live[k])
    ensures Next(m, Current(symbols, live)) == Some(k)
  {
    var s := Current(symbols, live);
    forall j: nat | Mergeable(m, s, j)
      ensures RankAt(m, s, k) < RankAt(m, s, j) || (RankAt(m, s, k) == RankAt(m, s, j) && k <= j)
    {
      assert PairCovered(m, symbols, live, heap, j);
      PackOrder(RankAt(m, s, k), live[k], RankAt(m, s, j), live[j]);
    }
    NextIsBest(m, s, k);
  }

  /** After a merge only the two pairs touching the merged symbol need new entries. */
  lemma CoveredAfterMerge(m: Merges, symbols: seq<Token>, live: seq<nat>, heap: seq<nat>, entry: nat,
                          k: nat, token: Token, heap': seq<nat>)
    requires Increasing(live, |symbols|) && |symbols| <= SHIFT32
    requires k + 1 < |live| && PackedPosition(entry) == live[k]
    requires Covered(m, symbols, live, heap + [entry])
    requires forall e :: e in heap ==> e in heap'
    requires Increasing(Unlink(live, k), |symbols|)
    requires k > 0 ==> PairCovered(m, symbols[live[k] := token], Unlink(live, k), heap', k - 1)
    requires k + 2 < |live| ==> PairCovered(m, symbols[live[k] := token], Unlink(live, k), heap', k)
    ensures Covered(m, symbols[live[k] := token], Unlink(live, k), heap')
  {
    var r, after := Unlink(live, k), symbols[live[k] := token];
    forall j: nat | j + 1 < |r|
      ensures PairCovered(m, after, r, heap', j)
    {
      if j + 1 != k && j != k {
        var i := if j < k then j else j + 1;
        assert r[j] == live[i] && r[j + 1] == live[i + 1];
        assert PairCovered(m, symbols, live, heap + [entry], i);
        var pair := (symbols[live[i]], symbols[live[i + 1]]);
        if pair in m {
          PackOrder(m[pair].rank, live[i], 0, 0);
        }
      }
    }
  }

  /** Push the pair starting at `pos`, if it merges. */
  function PushPair(m: Merges, heap: seq<nat>, a: Token, b: Token, pos: nat): (r: seq<nat>)
    ensures |heap| <= |r| <= |heap| + 1
    ensures forall e :: e in heap ==> e in r
    ensures pos < SHIFT32 ==> forall e :: e in r ==> e in heap || PackedPosition(e) == pos
    ensures (a, b) in m ==> Pack(m[(a, b)].rank, pos) in r
  {
    if (a, b) in m then
      assert pos < SHIFT32 ==> PackedPosition(Pack(m[(a, b)].rank, pos)) == pos;
      heap + [Pack(m[(a, b)].rank, pos)]
    else heap
  }

  /** Unlink the right part of the pair at `pos`, and mark it dead. */
  method Surgery(next: array<nat>, prev: array<nat>, pos: nat, ghost live: seq<nat>, ghost k: nat)
    requires next != prev && next.Length <= NONE
    requires Linked(next[..], prev[..], live, NONE, NONE) && DeadHaveNoNext(next[..], live)
    requires k + 1 < |live| && live[k] == pos
    modifies next, prev
    ensures Linked(next[..], prev[..], Unlink(live, k), NONE, NONE)
    ensures DeadHaveNoNext(next[..], Unlink(live, k))
  {
    ghost var wasNext, wasPrev := next[..], prev[..];
    assert wasNext[live[k]] == Successor(live, k, NONE);
    assert wasNext[live[k + 1]] == Successor(live, k + 1, NONE);
    var right := next[pos];
    var rightRight := next[right];
    next[pos] := rightRight;
    if rightRight != NONE {
      prev[rightRight] := pos;
    }
    next[right] := NONE;
    UnlinkKeepsLinks(wasNext, wasPrev, live, NONE, NONE, k, next[..], prev[..]);
    forall p | 0 <= p < next.Length && next[..][p] != NONE
      ensures p in Unlink(live, k)
    {
      assert wasNext[p] != NONE;
      StillLive(live, k, p);
    }
  }

  /** Push the two pairs that touch the merged symbol. */
  method PushNeighbours(m: Merges, symbols: array<Token>, next: array<nat>, prev: array<nat>,
                        heap: seq<nat>, pos: nat, ghost live: seq<nat>, ghost k: nat)
    returns (heap': seq<nat>)
    requires symbols.Length == next.Length <= NONE
    requires Linked(next[..], prev[..], live, NONE, NONE)
    requires k < |live| && live[k] == pos
    requires forall e :: e in heap ==> PackedPosition(e) < symbols.Length
    ensures forall e :: e in heap ==> e in heap'
    ensures forall e :: e in heap' ==> PackedPosition(e) < symbols.Length
    ensures k > 0 ==> PairCovered(m, symbols[..], live, heap', k - 1)
    ensures k + 1 < |live| ==> PairCovered(m, symbols[..], live, heap', k)
    ensures |heap'| <= |heap| + 2
  {
    assert next[..][live[k]] == Successor(live, k, NONE);
    assert prev[..][live[k]] == Predecessor(live, k, NONE);
    heap' := heap;
    var left := prev[pos];
    if left != NONE {
      heap' := PushPair(m, heap', symbols[left], symbols[pos], left);
    }
    if next[pos] != NONE {
      heap' := PushPair(m, heap', symbols[pos], symbols[next[pos]], pos);
    }
  }

  /** Apply one merge: store the token, unlink its right part, refresh the two pairs. */
  method ApplyMerge(m: Merges, symbols: array<Token>, next: array<nat>, prev: array<nat>,
                    heap: seq<nat>, ghost entry: nat, pos: nat, token: Token, ghost live: seq<nat>, ghost k: nat)
    returns (heap': seq<nat>)
    requires symbols != next && symbols != prev && next != prev
    requires symbols.Length <= NONE
    requires HeapState(m, symbols[..], next[..], prev[..], live, heap + [entry])
    requires k + 1 < |live| && live[k] == pos == PackedPosition(entry)
    modifies symbols, next, prev
    ensures symbols[..] == old(symbols[..])[pos := token]
    ensures HeapState(m, symbols[..], next[..], prev[..], Unlink(live, k), heap')
    ensures |heap'| <= |heap| + 2
  {
    ghost var was := symbols[..];
    UnlinkIncreasing(live, |was|, k);
    symbols[pos] := token;
    Surgery(next, prev, pos, live, k);
    assert forall e :: e in heap ==> e in heap + [entry];
    heap' := PushNeighbours(m, symbols, next, prev, heap, pos, Unlink(live, k), k);
    assert symbols[..] == was[live[k] := token];
    CoveredAfterMerge(m, was, live, heap, entry, k, token, heap');
  }

  /** One turn of the loop after a pop: merge if the entry is current, drop it otherwise. */
  method ProcessEntry(m: Merges, symbols: array<Token>, next: array<nat>, prev: array<nat>,
                      heap: seq<nat>, entry: nat, ghost live: seq<nat>)
    returns (heap': seq<nat>, ghost live': seq<nat>)
    requires symbols != next && symbols != prev && next != prev
    requires symbols.Length <= NONE
    requires HeapState(m, symbols[..], next[..], prev[..], live, heap + [entry])
    requires forall e :: e in heap + [entry] ==> entry <= e
    modifies symbols, next, prev
    ensures HeapState(m, symbols[..], next[..], prev[..], live', heap')
    ensures |heap'| + 2 * |live'| <= |heap| + 2 * |live|
    ensures Greedy(m, Current(symbols[..], live')) == Greedy(m, Current(old(symbols[..]), live))
  {
    heap', live' := heap, live;
    assert forall e :: e in heap ==> e in heap + [entry];
    assert entry in heap + [entry];
    var pos := PackedPosition(entry);
    var right := next[pos];
    if right == NONE {
      forall k: nat | k + 1 < |live|
        ensures live[k] != pos
      {
        assert next[..][live[k]] == Successor(live, k, NONE);
      }
      DropStale(m, symbols[..], live, heap, entry);
      return;
    }
    ghost var k: nat :| k < |live| && live[k] == pos;
    assert next[..][live[k]] == Successor(live, k, NONE);
    var pair := (symbols[pos], symbols[right]);
    if pair in m && m[pair].rank == PackedRank(entry) {
      LeastIsNext(m, symbols[..], live, heap + [entry], entry, k);
      UnlinkIsApply(m, symbols[..], live, k);
      heap' := ApplyMerge(m, symbols, next, prev, heap, entry, pos, m[pair].token, live, k);
      live' := Unlink(live, k);
    } else {
      DropStale(m, symbols[..], live, heap, entry);
    }
  }

  /** The initial heap: one entry for each pair that merges. */
  method SeedHeap(m: Merges, symbols: array<Token>) returns (heap: seq<nat>)
    requires 2 <= symbols.Length <= NONE
    ensures forall e :: e in heap ==> PackedPosition(e) < symbols.Length
    ensures Covered(m, symbols[..], AllPositions(symbols.Length), heap)
  {
    heap := [];
    ghost var live := AllPositions(symbols.Length);
    for i := 0 to symbols.Length - 1
      invariant forall e :: e in heap ==> PackedPosition(e) < symbols.Length
      invariant forall k: nat :: k < i ==> PairCovered(m, symbols[..], live, heap, k)
    {
      ghost var was := heap;
      heap := PushPair(m, heap, symbols[i], symbols[i + 1], i);
      forall k: nat | k < i
        ensures PairCovered(m, symbols[..], live, heap, k)
      {
        assert PairCovered(m, symbols[..], live, was, k);
      }
    }
  }

  /** The heap loop refines the rule, for any symbols and any merge table. */
  method HeapMerge(m: Merges, symbols: array<Token>) returns (len: nat)
    requires 2 <= symbols.Length <= NONE
    modifies symbols
    ensures len <= symbols.Length
    ensures symbols[..len] == Greedy(m, old(symbols[..]))
  {
    ghost var was := symbols[..];
    var next, prev := InitLinks(symbols.Length, symbols.Length, NONE, NONE);
    assert next[..symbols.Length] == next[..] && prev[..symbols.Length] == prev[..];
    var heap := SeedHeap(m, symbols);
    ghost var live := AllPositions(symbols.Length);
    CurrentAll(symbols[..]);
    forall p | 0 <= p < symbols.Length
      ensures p in live
    {
      assert live[p] == p;
    }
    while heap != []
      invariant HeapState(m, symbols[..], next[..], prev[..], live, heap)
      invariant Greedy(m, Current(symbols[..], live)) == Greedy(m, was)
      decreases |heap| + 2 * |live|
    {
      var entry, rest := PopMin(heap);
      HeapAsPopped(m, symbols[..], live, heap, rest, entry);
      heap, live := ProcessEntry(m, symbols, next, prev, rest, entry, live);
    }
    EmptyHeapMeansDone(m, symbols[..], live);
    assert live[0] == 0;
    assert symbols[..symbols.Length] == symbols[..];
    len := Compact(symbols, next, symbols.Length, NONE, live);
  }

  lemma HeapAsPopped(m: Merges, symbols: seq<Token>, live: seq<nat>, heap: seq<nat>, rest: seq<nat>, entry: nat)
    requires Increasing(live, |symbols|) && Covered(m, symbols, live, heap)
    requires multiset(heap) == multiset(rest) + multiset{entry}
    ensures forall e :: e in rest + [entry] <==> e in heap
    ensures Covered(m, symbols, live, rest + [entry])
  {
    forall e
      ensures e in rest + [entry] <==> e in heap
    {
      assert e in heap <==> e in multiset(heap);
      assert e in rest <==> e in multiset(rest);
    }
    forall k: nat | k + 1 < |live|
      ensures PairCovered(m, symbols, live, rest + [entry], k)
    {
      assert PairCovered(m, symbols, live, heap, k);
    }
  }

  /** With no entry left no live pair merges, so the rule has stopped too. */
  lemma EmptyHeapMeansDone(m: Merges, symbols: seq<Token>, live: seq<nat>)
    requires Increasing(live, |symbols|) && Covered(m, symbols, live, [])
    ensures Greedy(m, Current(symbols, live)) == Current(symbols, live)
  {
    var s := Current(symbols, live);
    forall k: nat
      ensures !Mergeable(m, s, k)
    {
      if k + 1 < |live| {
        assert PairCovered(m, symbols, live, [], k);
      }
    }
    NextIsBest(m, s, 0);
  }
}

/**
 The doubly linked list the merge loops keep over a symbol array: `live` is the
 increasing sequence of positions still in the list.
 */
module MergeLists {
  import opened Prelude
  import opened Bpe

  ghost predicate Increasing(live: seq<nat>, n: nat) {
    && (forall k :: 0 <= k < |live| ==> live[k] < n)
    && (forall j, k :: 0 <= j < k < |live| ==> live[j] < live[k])
  }

  /** The live position after index `k`, or the end mark. */
  function Successor(live: seq<nat>, k: nat, endMark: nat): nat {
    if k + 1 < |live| then live[k + 1] else endMark
  }

  /** The live position before index `k`, or the start mark. */
  function Predecessor(live: seq<nat>, k: nat, startMark: nat): nat
    requires k < |live|
  {
    if k > 0 then live[k - 1] else startMark
  }

  /** `next` and `prev` link exactly the live positions; the ends hold the two marks. */
  ghost predicate Linked(next: seq<nat>, prev: seq<nat>, live: seq<nat>, endMark: nat, startMark: nat) {
    && |next| == |prev| <= endMark && |prev| <= startMark
    && Increasing(live, |next|)
    && live != [] && live[0] == 0
    && (forall k {:trigger next[live[k]]} :: 0 <= k < |live| ==> next[live[k]] == Successor(live, k, endMark))
    && (forall k {:trigger prev[live[k]]} :: 0 <= k < |live| ==> prev[live[k]] == Predecessor(live, k, startMark))
  }

  /** The symbols at the live positions, in order. */
  ghost function Current(symbols: seq<Token>, live: seq<nat>): (s: seq<Token>)
    requires Increasing(live, |symbols|)
    ensures |s| == |live|
  {
    seq(|live|, k requires 0 <= k < |live| => symbols[live[k]])
  }

  /** The live positions after the pair at index `k` absorbed its right part. */
  ghost function Unlink(live: seq<nat>, k: nat): (r: seq<nat>)
    requires k + 1 < |live|
    ensures |r| == |live| - 1
    ensures forall j :: 0 <= j < |r| ==> r[j] == if j <= k then live[j] else live[j + 1]
  {
    live[..k + 1] + live[k + 2..]
  }

  lemma UnlinkIncreasing(live: seq<nat>, n: nat, k: nat)
    requires Increasing(live, n) && k + 1 < |live|
    ensures Increasing(Unlink(live, k), n)
    ensures live[k + 1] !in Unlink(live, k)
  {
  }

  /** Every other live position stays in the list. */
  lemma StillLive(live: seq<nat>, k: nat, p: nat)
    requires k + 1 < |live| && p in live && p != live[k + 1]
    ensures p in Unlink(live, k)
  {
    var i :| 0 <= i < |live| && live[i] == p;
    assert Unlink(live, k)[if i <= k then i else i - 1] == p;
  }

  lemma UnlinkNext(next: seq<nat>, live: seq<nat>, endMark: nat, k: nat, next': seq<nat>)
    requires Increasing(live, |next|) && k + 1 < |live| && |next'| == |next|
    requires forall j {:trigger next[live[j]]} :: 0 <= j < |live| ==> next[live[j]] == Successor(live, j, endMark)
    requires next'[live[k]] == next[live[k + 1]]
    requires forall i :: 0 <= i < |next| && i != live[k] && i != live[k + 1] ==> next'[i] == next[i]
    ensures var r := Unlink(live, k);
            forall j {:trigger next'[r[j]]} :: 0 <= j < |r| ==>
              r[j] < |next'| && next'[r[j]] == Successor(r, j, endMark)
  {
    var r := Unlink(live, k);
    forall j | 0 <= j < |r|
      ensures r[j] < |next'| && next'[r[j]] == Successor(r, j, endMark)
    {
      var i := if j <= k then j else j + 1;
      assert r[j] == live[i];
      assert next[live[i]] == Successor(live, i, endMark);
    }
  }

  lemma UnlinkPrev(prev: seq<nat>, live: seq<nat>, startMark: nat, k: nat, prev': seq<nat>)
    requires Increasing(live, |prev|) && k + 1 < |live| && |prev'| == |prev|
    requires forall j {:trigger prev[live[j]]} :: 0 <= j < |live| ==> prev[live[j]] == Predecessor(live, j, startMark)
    requires k + 2 < |live| ==> prev'[live[k + 2]] == live[k]
    requires forall i :: 0 <= i < |prev| && (k + 2 < |live| ==> i != live[k + 2]) && i != live[k + 1] ==>
               prev'[i] == prev[i]
    ensures var r := Unlink(live, k);
            forall j {:trigger prev'[r[j]]} :: 0 <= j < |r| ==>
              r[j] < |prev'| && prev'[r[j]] == Predecessor(r, j, startMark)
  {
    var r := Unlink(live, k);
    forall j | 0 <= j < |r|
      ensures r[j] < |prev'| && prev'[r[j]] == Predecessor(r, j, startMark)
    {
      var i := if j <= k then j else j + 1;
      assert r[j] == live[i];
      assert prev[live[i]] == Predecessor(live, i, startMark);
    }
  }

  /** The link surgery of one merge leaves a well-linked list. */
  lemma UnlinkKeepsLinks(next: seq<nat>, prev: seq<nat>, live: seq<nat>, endMark: nat, startMark: nat,
                         k: nat, next': seq<nat>, prev': seq<nat>)
    requires Linked(next, prev, live, endMark, startMark) && k + 1 < |live|
    requires |next'| == |prev'| == |next|
    requires next'[live[k]] == next[live[k + 1]]
    requires forall i :: 0 <= i < |next| && i != live[k] && i != live[k + 1] ==> next'[i] == next[i]
    requires forall i :: 0 <= i < |next| && i != next[live[k + 1]] && i != live[k + 1] ==> prev'[i] == prev[i]
    requires next[live[k + 1]] < |next| ==> prev'[next[live[k + 1]]] == live[k]
    ensures Linked(next', prev', Unlink(live, k), endMark, startMark)
  {
    UnlinkIncreasing(live, |next|, k);
    UnlinkNext(next, live, endMark, k, next');
    UnlinkPrev(prev, live, startMark, k, prev');
  }

  /** Storing the merged token and unlinking its right part is one step of the rule. */
  lemma UnlinkIsApply(m: Merges, symbols: seq<Token>, live: seq<nat>, k: nat)
    requires Increasing(live, |symbols|) && k + 1 < |live|
    requires (symbols[live[k]], symbols[live[k + 1]]) in m
    ensures Increasing(Unlink(live, k), |symbols|)
    ensures Mergeable(m, Current(symbols, live), k)
    ensures Current(symbols[live[k] := m[(symbols[live[k]], symbols[live[k + 1]])].token], Unlink(live, k))
         == Apply(m, Current(symbols, live), k)
  {
    UnlinkIncreasing(live, |symbols|, k);
    var s := Current(symbols, live);
    var t := m[(symbols[live[k]], symbols[live[k + 1]])].token;
    var lhs, rhs := Current(symbols[live[k] := t], Unlink(live, k)), Apply(m, s, k);
    assert rhs == s[..k] + [t] + s[k + 2..];
    forall j | 0 <= j < |lhs|
      ensures lhs[j] == rhs[j]
    {
    }
  }

  /** A fresh list over `n` symbols. */
  ghost function AllPositions(n: nat): (live: seq<nat>)
    ensures |live| == n && Increasing(live, n)
    ensures forall k :: 0 <= k < n ==> live[k] == k
  {
    seq(n, k => k)
  }

  lemma CurrentAll(symbols: seq<Token>)
    ensures Current(symbols, AllPositions(|symbols|)) == symbols
  {
  }

  /** The `k`-th survivor sits at position `k` or later. */
  lemma {:induction false} SurvivorsAhead(live: seq<nat>, n: nat, k: nat)
    requires Increasing(live, n) && k < |live|
    ensures k <= live[k]
  {
    if k > 0 {
      SurvivorsAhead(live, n, k - 1);
    }
  }

  /** Move the survivors among the first `n` symbols to the front, in order. */
  method Compact(symbols: array<Token>, next: array<nat>, n: nat, endMark: nat, ghost live: seq<nat>)
    returns (write: nat)
    requires symbols != next && n <= next.Length && n <= symbols.Length && n <= endMark
    requires Increasing(live, n) && live != [] && live[0] == 0
    requires forall k {:trigger next[live[k]]} :: 0 <= k < |live| ==> next[live[k]] == Successor(live, k, endMark)
    modifies symbols
    ensures write == |live| <= n
    ensures symbols[..write] == Current(old(symbols[..n]), live)
  {
    ghost var was := symbols[..n];
    write := 0;
    var i := 0;
    SurvivorsAhead(live, n, |live| - 1);
    while i < n
      invariant write <= |live| <= n
      invariant i == if write < |live| then live[write] else endMark
      invariant forall k :: 0 <= k < write ==> symbols[k] == was[live[k]]
      invariant forall p :: write <= p < n ==> symbols[p] == was[p]
      decreases |live| - write
    {
      SurvivorsAhead(live, n, write);
      symbols[write] := symbols[i];
      write := write + 1;
      i := next[i];
    }
    assert symbols[..write] == Current(was, live);
  }

  /** Link the first `n` positions of two buffers to their neighbours. */
  method InitLinks(size: nat, n: nat, endMark: nat, startMark: nat) returns (next: array<nat>, prev: array<nat>)
    requires 0 < n <= size && n <= endMark && n <= startMark
    ensures fresh(next) && fresh(prev) && next != prev && next.Length == prev.Length == size
    ensures Linked(next[..n], prev[..n], AllPositions(n), endMark, startMark)
  {
    next, prev := new nat[size](_ => 0), new nat[size](_ => 0);
    for i := 0 to n
      invariant forall j :: 0 <= j < i ==> next[j] == if j + 1 < n then j + 1 else endMark
      invariant forall j :: 0 <= j < i ==> prev[j] == if j > 0 then (j - 1) as nat else startMark
    {
      next[i] := if i + 1 < n then i + 1 else endMark;
      prev[i] := if i > 0 then i - 1 else startMark;
    }
  }
}

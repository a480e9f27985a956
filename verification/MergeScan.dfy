/**
 The array merge loops for short inputs: a rank per position, a linear scan for
 the lowest one, and the same linked-list surgery as the heap loop. A rank of
 `U32_MAX` means "no merge" to these loops.
 */
module MergeScan {
  import opened Prelude
  import opened Bpe
  import opened MergeLists

  const SMALL_MERGE_MAX: nat := 32
  const START_MARK: nat := 255

  /** Ranks are 32-bit values. */
  ghost predicate RanksFit(m: Merges) {
    forall p :: p in m ==> m[p].rank <= U32_MAX
  }

  /** Vocabularies whose ids follow merge order: the rank is the merged id. */
  ghost predicate IdRanked(m: Merges) {
    forall p :: p in m ==> m[p].token == m[p].rank
  }

  /** The merges a rank lookup can report: those not ranked `U32_MAX`. */
  function Visible(m: Merges): Merges {
    map p | p in m && m[p].rank != U32_MAX :: m[p]
  }

  /** The rank lookup of the loops. */
  function RankOf(m: Merges, a: Token, b: Token): nat {
    if (a, b) in m then m[(a, b)].rank else U32_MAX
  }

  /** The rank that belongs to list index `k`. */
  ghost function RankAtIndex(m: Merges, symbols: seq<Token>, live: seq<nat>, k: nat): nat
    requires Increasing(live, |symbols|) && k < |live|
  {
    if k + 1 < |live| then RankOf(m, symbols[live[k]], symbols[live[k + 1]]) else U32_MAX
  }

  /** Each live position holds the rank of its pair, each dead one holds "no merge". */
  ghost predicate RanksCurrent(m: Merges, symbols: seq<Token>, live: seq<nat>, ranks: seq<nat>) {
    && |ranks| == |symbols| && Increasing(live, |symbols|)
    && (forall k {:trigger ranks[live[k]]} :: 0 <= k < |live| ==> ranks[live[k]] == RankAtIndex(m, symbols, live, k))
    && (forall p :: 0 <= p < |ranks| && ranks[p] != U32_MAX ==> p in live)
  }

  /** Position of the lowest rank, leftmost on ties; `U32_MAX` when nothing merges. */
  method ScanLowest(ranks: array<nat>, n: nat) returns (best: nat, bestAt: nat)
    requires n <= ranks.Length
    ensures best <= U32_MAX
    ensures forall i :: 0 <= i < n ==> best <= ranks[i]
    ensures best < U32_MAX ==> bestAt < n && ranks[bestAt] == best && forall i :: 0 <= i < bestAt ==> best < ranks[i]
  {
    best, bestAt := U32_MAX, 0;
    for i := 0 to n
      invariant best <= U32_MAX
      invariant forall j :: 0 <= j < i ==> best <= ranks[j]
      invariant best < U32_MAX ==> bestAt < i && ranks[bestAt] == best
      invariant best < U32_MAX ==> forall j :: 0 <= j < bestAt ==> best < ranks[j]
    {
      if ranks[i] < best {
        best, bestAt := ranks[i], i;
      }
    }
  }

  /** The lowest, leftmost rank names the pair the rule merges next. */
  lemma LowestIsNext(m: Merges, symbols: seq<Token>, live: seq<nat>, ranks: seq<nat>, k: nat)
    requires RanksFit(m) && RanksCurrent(m, symbols, live, ranks)
    requires k < |live| && ranks[live[k]] < U32_MAX
    requires forall i :: 0 <= i < |ranks| - 1 ==> ranks[live[k]] <= ranks[i]
    requires forall i :: 0 <= i < live[k] ==> ranks[live[k]] < ranks[i]
    ensures k + 1 < |live| && (symbols[live[k]], symbols[live[k + 1]]) in Visible(m)
    ensures ranks[live[k]] == Visible(m)[(symbols[live[k]], symbols[live[k + 1]])].rank
    ensures Next(Visible(m), Current(symbols, live)) == Some(k)
  {
    var s, w := Current(symbols, live), Visible(m);
    assert ranks[live[k]] == RankAtIndex(m, symbols, live, k);
    forall j: nat | Mergeable(w, s, j)
      ensures RankAt(w, s, k) < RankAt(w, s, j) || (RankAt(w, s, k) == RankAt(w, s, j) && k <= j)
    {
      assert ranks[live[j]] == RankAtIndex(m, symbols, live, j);
    }
    NextIsBest(w, s, k);
  }

  /** When every scanned rank says "no merge", the rule has stopped too. */
  lemma NoRankMeansDone(m: Merges, symbols: seq<Token>, live: seq<nat>, ranks: seq<nat>)
    requires RanksFit(m) && RanksCurrent(m, symbols, live, ranks)
    requires forall i :: 0 <= i < |ranks| - 1 ==> U32_MAX <= ranks[i]
    ensures Greedy(Visible(m), Current(symbols, live)) == Current(symbols, live)
  {
    var s, w := Current(symbols, live), Visible(m);
    forall k: nat
      ensures !Mergeable(w, s, k)
    {
      if k + 1 < |live| {
        assert ranks[live[k]] == RankAtIndex(m, symbols, live, k);
      }
    }
    NextIsBest(w, s, 0);
  }

  /** The ranks away from the merged pair still belong to their pairs. */
  lemma RankUntouched(m: Merges, symbols: seq<Token>, live: seq<nat>, k: nat, token: Token, j: nat)
    requires Increasing(live, |symbols|) && k + 1 < |live| && j + 1 < |live|
    requires j + 1 != k && j != k
    requires Increasing(Unlink(live, k), |symbols|)
    ensures var i := if j < k then j else j + 1;
            && Unlink(live, k)[j] == live[i]
            && RankAtIndex(m, symbols[live[k] := token], Unlink(live, k), j) == RankAtIndex(m, symbols, live, i)
  {
    var i := if j < k then j else j + 1;
    if i + 1 < |live| {
      assert Unlink(live, k)[j + 1] == live[i + 1];
    }
  }

  /** After a merge only the two ranks touching the merged symbol change. */
  lemma RanksAfterMerge(m: Merges, symbols: seq<Token>, live: seq<nat>, ranks: seq<nat>,
                        k: nat, token: Token, ranks': seq<nat>)
    requires RanksCurrent(m, symbols, live, ranks) && k + 1 < |live|
    requires |ranks'| == |ranks| && Increasing(Unlink(live, k), |symbols|)
    requires ranks'[live[k + 1]] == U32_MAX
    requires ranks'[live[k]] == RankAtIndex(m, symbols[live[k] := token], Unlink(live, k), k)
    requires k > 0 ==> ranks'[live[k - 1]] == RankAtIndex(m, symbols[live[k] := token], Unlink(live, k), k - 1)
    requires forall p :: 0 <= p < |ranks| && p != live[k] && p != live[k + 1] && (k > 0 ==> p != live[k - 1])
                         ==> ranks'[p] == ranks[p]
    ensures RanksCurrent(m, symbols[live[k] := token], Unlink(live, k), ranks')
  {
    var r, after := Unlink(live, k), symbols[live[k] := token];
    forall j | 0 <= j < |r|
      ensures ranks'[r[j]] == RankAtIndex(m, after, r, j)
    {
      if j + 1 != k && j != k {
        RankUntouched(m, symbols, live, k, token, j);
        var i := if j < k then j else j + 1;
        assert ranks[live[i]] == RankAtIndex(m, symbols, live, i);
      }
    }
    forall p | 0 <= p < |ranks'| && ranks'[p] != U32_MAX
      ensures p in r
    {
      assert ranks[p] != U32_MAX || p == live[k] || (k > 0 && p == live[k - 1]);
      StillLive(live, k, p);
    }
  }

  /** Unlink the right part of the pair at `pos`; its own links become unreachable. */
  method UnlinkRight(next: array<nat>, prev: array<nat>, n: nat, pos: nat, ghost live: seq<nat>, ghost k: nat)
    returns (dead: nat, newRight: nat)
    requires next != prev && n <= next.Length && n <= prev.Length && n <= START_MARK
    requires Linked(next[..n], prev[..n], live, n, START_MARK)
    requires k + 1 < |live| && live[k] == pos
    modifies next, prev
    ensures Linked(next[..n], prev[..n], Unlink(live, k), n, START_MARK)
    ensures dead == live[k + 1] && newRight == Successor(Unlink(live, k), k, n)
    ensures prev[pos] == Predecessor(Unlink(live, k), k, START_MARK)
  {
    ghost var wasNext, wasPrev := next[..n], prev[..n];
    assert wasNext[live[k]] == Successor(live, k, n);
    assert wasNext[live[k + 1]] == Successor(live, k + 1, n);
    dead := next[pos];
    newRight := next[dead];
    next[pos] := newRight;
    if newRight < n {
      prev[newRight] := pos;
    }
    UnlinkKeepsLinks(wasNext, wasPrev, live, n, START_MARK, k, next[..n], prev[..n]);
    assert Unlink(live, k)[k] == pos;
    assert prev[..n][Unlink(live, k)[k]] == Predecessor(Unlink(live, k), k, START_MARK);
  }

  /** One merge of the id-ranked loop at list index `k`. */
  method MergeAt(m: Merges, symbols: array<Token>, next: array<nat>, prev: array<nat>, ranks: array<nat>,
                 pos: nat, token: Token, ghost live: seq<nat>, ghost k: nat)
    requires symbols != next && symbols != prev && next != prev && ranks != symbols && ranks != next && ranks != prev
    requires symbols.Length == next.Length <= SMALL_MERGE_MAX
    requires Linked(next[..], prev[..], live, next.Length, START_MARK)
    requires RanksCurrent(m, symbols[..], live, ranks[..])
    requires k + 1 < |live| && live[k] == pos
    modifies symbols, next, prev, ranks
    ensures symbols[..] == old(symbols[..])[pos := token]
    ensures Linked(next[..], prev[..], Unlink(live, k), next.Length, START_MARK)
    ensures RanksCurrent(m, symbols[..], Unlink(live, k), ranks[..])
  {
    ghost var was, wasRanks := symbols[..], ranks[..];
    ghost var r := Unlink(live, k);
    symbols[pos] := token;
    assert next[..next.Length] == next[..] && prev[..prev.Length] == prev[..];
    var dead, newRight := UnlinkRight(next, prev, next.Length, pos, live, k);
    assert next[..next.Length] == next[..] && prev[..prev.Length] == prev[..];
    ranks[dead] := U32_MAX;
    if newRight < symbols.Length {
      ranks[pos] := RankOf(m, symbols[pos], symbols[newRight]);
    } else {
      ranks[pos] := U32_MAX;
    }
    var left := prev[pos];
    if left < symbols.Length {
      ranks[left] := RankOf(m, symbols[left], symbols[pos]);
    }
    assert symbols[..] == was[live[k] := token];
    RanksAfterMerge(m, was, live, wasRanks, k, token, ranks[..]);
  }

  /** The initial ranks: one per adjacent pair, "no merge" at the last position. */
  method InitRanks(m: Merges, symbols: array<Token>) returns (ranks: array<nat>)
    requires symbols.Length > 0
    ensures fresh(ranks) && RanksCurrent(m, symbols[..], AllPositions(symbols.Length), ranks[..])
  {
    ranks := new nat[symbols.Length](_ => U32_MAX);
    ghost var live := AllPositions(symbols.Length);
    for i := 0 to symbols.Length - 1
      invariant forall k :: 0 <= k < i ==> ranks[k] == RankOf(m, symbols[k], symbols[k + 1])
      invariant forall k :: i <= k < symbols.Length ==> ranks[k] == U32_MAX
    {
      ranks[i] := RankOf(m, symbols[i], symbols[i + 1]);
    }
    forall p | 0 <= p < symbols.Length
      ensures p in live
    {
      assert live[p] == p;
    }
  }

  /** Find the pair the rule merges next, if any. */
  method FindNext(m: Merges, symbols: array<Token>, ranks: array<nat>, ghost live: seq<nat>)
    returns (best: nat, bestAt: nat, ghost k: nat)
    requires 2 <= symbols.Length && RanksFit(m) && live != []
    requires RanksCurrent(m, symbols[..], live, ranks[..])
    ensures best == U32_MAX ==> Greedy(Visible(m), Current(symbols[..], live)) == Current(symbols[..], live)
    ensures best != U32_MAX ==>
              && k + 1 < |live| && live[k] == bestAt < symbols.Length
              && (symbols[live[k]], symbols[live[k + 1]]) in Visible(m)
              && Visible(m)[(symbols[live[k]], symbols[live[k + 1]])].rank == best
              && Next(Visible(m), Current(symbols[..], live)) == Some(k)
  {
    best, bestAt := ScanLowest(ranks, symbols.Length - 1);
    k := 0;
    if best == U32_MAX {
      NoRankMeansDone(m, symbols[..], live, ranks[..]);
    } else {
      assert ranks[..][bestAt] != U32_MAX;
      k :| k < |live| && live[k] == bestAt;
      LowestIsNext(m, symbols[..], live, ranks[..], k);
    }
  }

  /**
   The loop for inputs of 2 to 32 symbols of an id-ranked vocabulary refines the
   rule over the visible merges.
   */
  method MergeSmall(m: Merges, symbols: array<Token>) returns (len: nat)
    requires 2 <= symbols.Length <= SMALL_MERGE_MAX && RanksFit(m) && IdRanked(m)
    modifies symbols
    ensures len <= symbols.Length
    ensures symbols[..len] == Greedy(Visible(m), old(symbols[..]))
  {
    ghost var was := symbols[..];
    var n := symbols.Length;
    var next, prev := InitLinks(n, n, n, START_MARK);
    assert next[..n] == next[..] && prev[..n] == prev[..];
    var ranks := InitRanks(m, symbols);
    ghost var live := AllPositions(n);
    CurrentAll(symbols[..]);
    while true
      invariant Linked(next[..], prev[..], live, n, START_MARK)
      invariant RanksCurrent(m, symbols[..], live, ranks[..])
      invariant Greedy(Visible(m), Current(symbols[..], live)) == Greedy(Visible(m), was)
      decreases |live|
    {
      var best, bestAt;
      ghost var k;
      best, bestAt, k := FindNext(m, symbols, ranks, live);
      if best == U32_MAX {
        break;
      }
      UnlinkIsApply(Visible(m), symbols[..], live, k);
      MergeAt(m, symbols, next, prev, ranks, bestAt, best, live, k);
      live := Unlink(live, k);
    }
    assert symbols[..n] == symbols[..];
    len := Compact(symbols, next, n, n, live);
  }

  /** The merged token of each live pair that merges. */
  ghost predicate TokensCurrent(m: Merges, symbols: seq<Token>, live: seq<nat>, merged: seq<Token>) {
    && |merged| == |symbols| && Increasing(live, |symbols|)
    && forall k: nat {:trigger merged[live[k]]} :: k + 1 < |live| && (symbols[live[k]], symbols[live[k + 1]]) in m ==>
         merged[live[k]] == m[(symbols[live[k]], symbols[live[k + 1]])].token
  }

  /** The token lookup that goes with `RankOf`. */
  function TokenOf(m: Merges, a: Token, b: Token): Token {
    if (a, b) in m then m[(a, b)].token else 0
  }

  lemma TokensAfterMerge(m: Merges, symbols: seq<Token>, live: seq<nat>, merged: seq<Token>,
                         k: nat, token: Token, merged': seq<Token>)
    requires TokensCurrent(m, symbols, live, merged) && k + 1 < |live|
    requires |merged'| == |merged| && Increasing(Unlink(live, k), |symbols|)
    requires k + 2 < |live| ==> merged'[live[k]] == TokenOf(m, token, symbols[live[k + 2]])
    requires k > 0 ==> merged'[live[k - 1]] == TokenOf(m, symbols[live[k - 1]], token)
    requires forall p :: 0 <= p < |merged| && p != live[k] && (k > 0 ==> p != live[k - 1]) ==> merged'[p] == merged[p]
    ensures TokensCurrent(m, symbols[live[k] := token], Unlink(live, k), merged')
  {
    var r, after := Unlink(live, k), symbols[live[k] := token];
    forall j: nat | j + 1 < |r| && (after[r[j]], after[r[j + 1]]) in m
      ensures merged'[r[j]] == m[(after[r[j]], after[r[j + 1]])].token
    {
      if j + 1 != k && j != k {
        var i := if j < k then j else j + 1;
        assert r[j] == live[i] && r[j + 1] == live[i + 1];
        assert merged[live[i]] == merged'[r[j]];
      }
    }
  }

  /** One merge of the explicit-rank loop: as `MergeAt`, and the two merged tokens are refreshed too. */
  method MergeRankedAt(m: Merges, symbols: array<Token>, next: array<nat>, prev: array<nat>, ranks: array<nat>,
                       merged: array<Token>, pos: nat, ghost live: seq<nat>, ghost k: nat)
    requires symbols != next && symbols != prev && next != prev && ranks != symbols && ranks != next && ranks != prev
    requires merged != symbols && merged != next && merged != prev && merged != ranks
    requires symbols.Length == next.Length <= SMALL_MERGE_MAX
    requires Linked(next[..], prev[..], live, next.Length, START_MARK)
    requires RanksCurrent(m, symbols[..], live, ranks[..]) && TokensCurrent(m, symbols[..], live, merged[..])
    requires k + 1 < |live| && live[k] == pos
    modifies symbols, next, prev, ranks, merged
    ensures symbols[..] == old(symbols[..])[pos := old(merged[pos])]
    ensures Linked(next[..], prev[..], Unlink(live, k), next.Length, START_MARK)
    ensures RanksCurrent(m, symbols[..], Unlink(live, k), ranks[..])
    ensures TokensCurrent(m, symbols[..], Unlink(live, k), merged[..])
  {
    ghost var was, wasMerged, token := symbols[..], merged[..], merged[pos];
    ghost var r := Unlink(live, k);
    MergeAt(m, symbols, next, prev, ranks, pos, merged[pos], live, k);
    assert r[k] == pos;
    assert next[..][r[k]] == Successor(r, k, next.Length);
    assert prev[..][r[k]] == Predecessor(r, k, START_MARK);
    var newRight, left := next[pos], prev[pos];
    if newRight < symbols.Length {
      merged[pos] := TokenOf(m, symbols[pos], symbols[newRight]);
    }
    if left < symbols.Length {
      merged[left] := TokenOf(m, symbols[left], symbols[pos]);
    }
    TokensAfterMerge(m, was, live, wasMerged, k, token, merged[..]);
  }

  method InitTokens(m: Merges, symbols: array<Token>) returns (merged: array<Token>)
    requires symbols.Length > 0
    ensures fresh(merged) && TokensCurrent(m, symbols[..], AllPositions(symbols.Length), merged[..])
  {
    merged := new Token[symbols.Length](_ => 0);
    for i := 0 to symbols.Length - 1
      invariant forall k :: 0 <= k < i ==> merged[k] == TokenOf(m, symbols[k], symbols[k + 1])
    {
      merged[i] := TokenOf(m, symbols[i], symbols[i + 1]);
    }
  }

  /** One turn of the explicit-rank loop: merge the next pair if there is one. */
  method RankedTurn(m: Merges, symbols: array<Token>, next: array<nat>, prev: array<nat>, ranks: array<nat>,
                    merged: array<Token>, ghost live: seq<nat>) returns (done: bool, ghost live': seq<nat>)
    requires symbols != next && symbols != prev && next != prev && ranks != symbols && ranks != next && ranks != prev
    requires merged != symbols && merged != next && merged != prev && merged != ranks
    requires 2 <= symbols.Length == next.Length <= SMALL_MERGE_MAX && RanksFit(m)
    requires Linked(next[..], prev[..], live, next.Length, START_MARK)
    requires RanksCurrent(m, symbols[..], live, ranks[..]) && TokensCurrent(m, symbols[..], live, merged[..])
    modifies symbols, next, prev, ranks, merged
    ensures Linked(next[..], prev[..], live', next.Length, START_MARK)
    ensures RanksCurrent(m, symbols[..], live', ranks[..]) && TokensCurrent(m, symbols[..], live', merged[..])
    ensures Greedy(Visible(m), Current(symbols[..], live')) == Greedy(Visible(m), Current(old(symbols[..]), live))
    ensures done ==> Greedy(Visible(m), Current(symbols[..], live')) == Current(symbols[..], live')
    ensures !done ==> |live'| < |live|
  {
    live' := live;
    var best, bestAt;
    ghost var k;
    best, bestAt, k := FindNext(m, symbols, ranks, live);
    done := best == U32_MAX;
    if !done {
      assert merged[..][live[k]] == m[(symbols[live[k]], symbols[live[k + 1]])].token;
      UnlinkIsApply(Visible(m), symbols[..], live, k);
      hide RanksCurrent, TokensCurrent, Linked, Visible, RanksFit;
      MergeRankedAt(m, symbols, next, prev, ranks, merged, bestAt, live, k);
      live' := Unlink(live, k);
    }
  }

  /** The loop for 2 to 32 symbols with explicit ranks refines the rule over the visible merges. */
  method MergeRankedSlice(m: Merges, symbols: array<Token>) returns (len: nat)
    requires 2 <= symbols.Length <= SMALL_MERGE_MAX && RanksFit(m)
    modifies symbols
    ensures len <= symbols.Length
    ensures symbols[..len] == Greedy(Visible(m), old(symbols[..]))
  {
    hide RanksCurrent, TokensCurrent, Visible, RanksFit, Greedy;
    ghost var was := symbols[..];
    var n := symbols.Length;
    var next, prev := InitLinks(n, n, n, START_MARK);
    assert next[..n] == next[..] && prev[..n] == prev[..];
    var ranks := InitRanks(m, symbols);
    var merged := InitTokens(m, symbols);
    ghost var live := AllPositions(n);
    CurrentAll(symbols[..]);
    var done := false;
    while !done
      invariant Linked(next[..], prev[..], live, n, START_MARK)
      invariant RanksCurrent(m, symbols[..], live, ranks[..]) && TokensCurrent(m, symbols[..], live, merged[..])
      invariant Greedy(Visible(m), Current(symbols[..], live)) == Greedy(Visible(m), was)
      invariant done ==> Greedy(Visible(m), Current(symbols[..], live)) == Current(symbols[..], live)
      decreases !done, |live|
    {
      done, live := RankedTurn(m, symbols, next, prev, ranks, merged, live);
    }
    assert symbols[..n] == symbols[..];
    len := Compact(symbols, next, n, n, live);
  }
}

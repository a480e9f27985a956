/**
 The merge loops for short pretokens: fixed 16-lane buffers, and ranks read from the
 pair-rank table. One scans a rank per lane, the other a rank and its position packed
 into one number.
 */
module ShortMerge {
  import opened Prelude
  import opened Bpe
  import opened MergeLists
  import opened MergeScan
  import opened MergeEngine
  import opened PairRanks
  import Probing

  const SHORT_MERGE_MAX: nat := 16

  /** The table holds the merges of an id-ranked vocabulary, and every lookup ends. */
  ghost predicate Serves(table: PairRankTable, m: Merges)
    reads table, table.dense, table.slots
  {
    && table.Valid() && table.merges == PairIds(m) && IdRanked(m)
    && |table.merges| < table.slots.Length
  }

  ghost predicate Narrow(s: seq<Token>) {
    forall i :: 0 <= i < |s| ==> s[i] < ID_LIMIT
  }

  /** All ids are ranks, narrow, and so none is reserved. */
  ghost predicate SmallIds(m: Merges) {
    RanksFit(m) && Visible(m) == m && forall p :: p in m ==> m[p].token == m[p].rank < ID_LIMIT
  }

  lemma ServedMerges(table: PairRankTable, m: Merges)
    requires Serves(table, m)
    ensures SmallIds(m) && IdRanked(m)
    ensures table.slots.Length > 0 && table.dense.Length == DENSE * DENSE && HasFree(table.slots[..])
  {
    TableHasFree(table);
    hide Flat, Grid, Probing.Occupied, Probing.PowerOfTwo, Cells;
    SmallInMap(m, table.packed);
  }

  lemma SmallInMap(m: Merges, packed: map<nat, nat>)
    requires KeyMap(PairIds(m), packed) && IdRanked(m)
    ensures SmallIds(m)
  {
    forall p | p in m
      ensures m[p].token < ID_LIMIT
    {
      assert PairIds(m)[p] < ID_LIMIT;
    }
  }

  lemma TableHasFree(table: PairRankTable)
    requires table.Valid() && |table.merges| < table.slots.Length
    ensures table.slots.Length > 0 && table.dense.Length == DENSE * DENSE && HasFree(table.slots[..])
  {
    hide Flat, KeyMap, Probing.PowerOfTwo, Cells, Probing.Occupied;
    assert |table.slots[..]| == table.slots.Length && |table.dense[..]| == table.dense.Length;
    SomeFree(table.slots[..]);
  }

  /** What the loops read: the rank of a pair of narrow ids. */
  method PairRank(table: PairRankTable, ghost m: Merges, a: Token, b: Token) returns (r: nat)
    requires Serves(table, m) && a < ID_LIMIT && b < ID_LIMIT
    ensures r == RankOf(m, a, b) && (r != U32_MAX ==> r < ID_LIMIT)
  {
    ServedMerges(table, m);
    hide PairRankTable.Valid, PairIds;
    r := table.Rank(a, b);
    TableAnswersRanks(m, a, b);
  }

  // ------------------------------------------------------------------
  // One merge
  // ------------------------------------------------------------------

  ghost predicate Foreign(table: PairRankTable, buffer: array<nat>) {
    buffer != table.dense && buffer != table.slots
  }

  /** Three distinct buffers of 16 lanes, none of them the table's. */
  ghost predicate Buffers(table: PairRankTable, symbols: array<Token>, next: array<nat>, prev: array<nat>) {
    && symbols.Length == next.Length == prev.Length == SHORT_MERGE_MAX
    && symbols != next && symbols != prev && next != prev
    && Foreign(table, symbols) && Foreign(table, next) && Foreign(table, prev)
  }

  /**
   Store the merged token, unlink the right part, and read the ranks of the two pairs that
   now touch the merged symbol.
   */
  method MergeStep(table: PairRankTable, ghost m: Merges, symbols: array<Token>, next: array<nat>, prev: array<nat>,
                   n: nat, pos: nat, token: Token, ghost live: seq<nat>, ghost k: nat)
    returns (dead: nat, more: bool, here: nat, left: nat, before: nat)
    requires Serves(table, m) && Buffers(table, symbols, next, prev) && n < SHORT_MERGE_MAX
    requires Linked(next[..n], prev[..n], live, n, START_MARK) && Narrow(symbols[..n]) && token < ID_LIMIT
    requires k + 1 < |live| && live[k] == pos
    modifies symbols, next, prev
    ensures symbols[..n] == old(symbols[..n])[pos := token] && Narrow(symbols[..n])
    ensures Linked(next[..n], prev[..n], Unlink(live, k), n, START_MARK)
    ensures dead == live[k + 1] && here == RankAtIndex(m, symbols[..n], Unlink(live, k), k)
    ensures left == Predecessor(Unlink(live, k), k, START_MARK)
    ensures left < n ==> k > 0 && left == live[k - 1] && before == RankAtIndex(m, symbols[..n], Unlink(live, k), k - 1)
    ensures if more then here == U32_MAX || here < ID_LIMIT else here == U32_MAX
    ensures left < n ==> before == U32_MAX || before < ID_LIMIT
  {
    hide Serves;
    ghost var r := Unlink(live, k);
    symbols[pos] := token;
    var newRight;
    dead, newRight := UnlinkRight(next, prev, n, pos, live, k);
    more, here := newRight < n, U32_MAX;
    if more {
      here := PairRank(table, m, symbols[pos], symbols[newRight]);
    }
    left := prev[pos];
    before := U32_MAX;
    if left < n {
      before := PairRank(table, m, symbols[left], symbols[pos]);
    }
  }

  /** The ranks after a merge, as a sequence. */
  ghost function Refreshed(ranks: seq<nat>, pos: nat, dead: nat, here: nat, left: nat, before: nat): seq<nat>
    requires pos < |ranks| && dead < |ranks|
  {
    var two := ranks[dead := U32_MAX][pos := here];
    if left < |ranks| then two[left := before] else two
  }

  lemma RefreshedIsCurrent(m: Merges, symbols: seq<Token>, live: seq<nat>, ranks: seq<nat>, k: nat, token: Token,
                           here: nat, left: nat, before: nat)
    requires RanksCurrent(m, symbols, live, ranks) && k + 1 < |live| && |symbols| <= START_MARK
    requires Increasing(Unlink(live, k), |symbols|)
    requires here == RankAtIndex(m, symbols[live[k] := token], Unlink(live, k), k)
    requires left == Predecessor(Unlink(live, k), k, START_MARK)
    requires k > 0 ==> before == RankAtIndex(m, symbols[live[k] := token], Unlink(live, k), k - 1)
    ensures RanksCurrent(m, symbols[live[k] := token], Unlink(live, k),
                         Refreshed(ranks, live[k], live[k + 1], here, left, before))
  {
    hide RankAtIndex;
    var ranks' := Refreshed(ranks, live[k], live[k + 1], here, left, before);
    RanksAfterMerge(m, symbols, live, ranks, k, token, ranks');
  }

  // ------------------------------------------------------------------
  // The scan over ranks
  // ------------------------------------------------------------------

  /** Fill the rank lanes of the adjacent pairs. */
  method ReadRanks(table: PairRankTable, ghost m: Merges, symbols: array<Token>, n: nat) returns (ranks: array<nat>)
    requires Serves(table, m) && symbols.Length == SHORT_MERGE_MAX && 0 < n < SHORT_MERGE_MAX && Narrow(symbols[..n])
    ensures fresh(ranks) && ranks.Length == SHORT_MERGE_MAX
    ensures RanksCurrent(m, symbols[..n], AllPositions(n), ranks[..n])
    ensures forall i :: 0 <= i < n ==> ranks[i] == U32_MAX || ranks[i] < ID_LIMIT
    ensures forall i :: n <= i < SHORT_MERGE_MAX ==> ranks[i] == U32_MAX
  {
    hide Serves;
    ranks := new nat[SHORT_MERGE_MAX](_ => U32_MAX);
    ghost var live := AllPositions(n);
    for i := 0 to n - 1
      invariant forall k :: 0 <= k < i ==> ranks[k] == RankOf(m, symbols[k], symbols[k + 1])
      invariant forall k :: 0 <= k < i ==> ranks[k] == U32_MAX || ranks[k] < ID_LIMIT
      invariant forall k :: i <= k < SHORT_MERGE_MAX ==> ranks[k] == U32_MAX
    {
      ranks[i] := PairRank(table, m, symbols[i], symbols[i + 1]);
    }
    forall p | 0 <= p < n
      ensures p in live
    {
      assert live[p] == p;
    }
  }

  /** What the loops know between two merges. */
  ghost predicate Running(m: Merges, symbols: seq<Token>, next: seq<nat>, prev: seq<nat>, ranks: seq<nat>,
                          live: seq<nat>, n: nat): (running: bool)
    ensures running ==> |symbols| == |next| == |ranks| == n && live != []
  {
    && |symbols| == |next| == n && Linked(next, prev, live, n, START_MARK) && RanksCurrent(m, symbols, live, ranks)
    && Narrow(symbols)
  }

  /** No pair of neighbours merges any more. */
  ghost predicate Exhausted(ranks: seq<nat>) {
    forall i :: 0 <= i < |ranks| - 1 ==> U32_MAX <= ranks[i]
  }

  /** What the rule makes of the live symbols. */
  ghost function Outcome(m: Merges, symbols: seq<Token>, live: seq<nat>): seq<Token> {
    if Increasing(live, |symbols|) then Greedy(m, Current(symbols, live)) else []
  }

  /** List index `k` at `pos` holds the pair the rule merges next, into `token`. */
  ghost predicate Chosen(m: Merges, symbols: seq<Token>, live: seq<nat>, k: nat, pos: nat, token: Token) {
    && Increasing(live, |symbols|) && k + 1 < |live| && live[k] == pos
    && (symbols[live[k]], symbols[live[k + 1]]) in m && m[(symbols[live[k]], symbols[live[k + 1]])].token == token
    && Next(m, Current(symbols, live)) == Some(k)
  }

  /** The pair of the lowest, leftmost rank is the one the rule merges next. */
  lemma LowestIsChosen(m: Merges, symbols: seq<Token>, next: seq<nat>, prev: seq<nat>, ranks: seq<nat>, live: seq<nat>,
                       n: nat, pos: nat) returns (k: nat)
    requires SmallIds(m) && Running(m, symbols, next, prev, ranks, live, n)
    requires pos < n && ranks[pos] < U32_MAX
    requires forall i :: 0 <= i < n - 1 ==> ranks[pos] <= ranks[i]
    requires forall i :: 0 <= i < pos ==> ranks[pos] < ranks[i]
    ensures Chosen(m, symbols, live, k, pos, ranks[pos]) && ranks[pos] < ID_LIMIT
  {
    hide Linked;
    k :| k < |live| && live[k] == pos;
    LowestIsNext(m, symbols, live, ranks, k);
  }

  lemma NothingChosen(m: Merges, symbols: seq<Token>, live: seq<nat>, ranks: seq<nat>)
    requires SmallIds(m) && RanksCurrent(m, symbols, live, ranks)
    requires Exhausted(ranks)
    ensures Increasing(live, |symbols|) && Outcome(m, symbols, live) == Current(symbols, live)
  {
    NoRankMeansDone(m, symbols, live, ranks);
  }

  /** Merging the chosen pair keeps what the rule makes of the symbols. */
  lemma StepOfRule(m: Merges, symbols: seq<Token>, live: seq<nat>, k: nat, pos: nat, token: Token)
    requires Chosen(m, symbols, live, k, pos, token)
    ensures Increasing(Unlink(live, k), |symbols|)
    ensures Outcome(m, symbols[pos := token], Unlink(live, k)) == Outcome(m, symbols, live)
  {
    UnlinkIsApply(m, symbols, live, k);
  }

  /** The merge of the chosen pair, with the rank lanes as a sequence. */
  method MergeChosen(table: PairRankTable, ghost m: Merges, symbols: array<Token>, next: array<nat>, prev: array<nat>,
                     n: nat, pos: nat, token: Token, ghost ranks: seq<nat>, ghost live: seq<nat>, ghost k: nat)
    returns (dead: nat, more: bool, here: nat, left: nat, before: nat)
    requires Serves(table, m) && Buffers(table, symbols, next, prev) && n < SHORT_MERGE_MAX && token < ID_LIMIT
    requires Running(m, symbols[..n], next[..n], prev[..n], ranks, live, n)
    requires Chosen(m, symbols[..n], live, k, pos, token)
    modifies symbols, next, prev
    ensures |live| > k + 1 && pos < n == |ranks| && dead < n && |Refreshed(ranks, pos, dead, here, left, before)| == n
    ensures Running(m, symbols[..n], next[..n], prev[..n], Refreshed(ranks, pos, dead, here, left, before),
                    Unlink(live, k), n)
    ensures Outcome(m, symbols[..n], Unlink(live, k)) == Outcome(m, old(symbols[..n]), live)
    ensures if more then here == U32_MAX || here < ID_LIMIT else here == U32_MAX
    ensures left < n ==> before == U32_MAX || before < ID_LIMIT
  {
    ghost var was := symbols[..n];
    StepOfRule(m, was, live, k, pos, token);
    hide Serves, Outcome, Narrow;
    dead, more, here, left, before := MergeStep(table, m, symbols, next, prev, n, pos, token, live, k);
    RefreshedIsCurrent(m, was, live, ranks, k, token, here, left, before);
  }

  lemma StartsRunning(m: Merges, symbols: seq<Token>, next: seq<nat>, prev: seq<nat>, ranks: seq<nat>, n: nat)
    requires |symbols| == |next| == n && Linked(next, prev, AllPositions(n), n, START_MARK)
    requires RanksCurrent(m, symbols, AllPositions(n), ranks) && Narrow(symbols)
    ensures Running(m, symbols, next, prev, ranks, AllPositions(n), n)
    ensures Outcome(m, symbols, AllPositions(n)) == Greedy(m, symbols)
  {
    CurrentAll(symbols);
  }

  /** Move the survivors to the front once nothing merges. */
  method Finish(ghost m: Merges, symbols: array<Token>, next: array<nat>, n: nat, ghost prev: seq<nat>,
                ghost ranks: seq<nat>, ghost live: seq<nat>) returns (len: nat)
    requires symbols != next && symbols.Length == next.Length == SHORT_MERGE_MAX && n < SHORT_MERGE_MAX
    requires Running(m, symbols[..n], next[..n], prev, ranks, live, n)
    requires SmallIds(m) && Exhausted(ranks)
    modifies symbols
    ensures len <= n && symbols[..len] == Outcome(m, old(symbols[..n]), live)
  {
    NothingChosen(m, symbols[..n], live, ranks);
    hide Outcome, RanksCurrent;
    assert forall k {:trigger next[live[k]]} :: 0 <= k < |live| ==> next[live[k]] == next[..n][live[k]];
    len := Compact(symbols, next, n, n, live);
  }

  /** Clear the dead lane and refresh the two touched ones. */
  method StoreRanks(ranks: array<nat>, n: nat, pos: nat, dead: nat, here: nat, left: nat, before: nat)
    requires pos < n && dead < n <= ranks.Length
    modifies ranks
    ensures ranks[..n] == Refreshed(old(ranks[..n]), pos, dead, here, left, before)
  {
    ranks[dead] := U32_MAX;
    ranks[pos] := here;
    if left < n {
      ranks[left] := before;
    }
  }

  /** One turn of the loop: scan, and merge the chosen pair if there is one. */
  method ShortTurn(table: PairRankTable, ghost m: Merges, symbols: array<Token>, next: array<nat>, prev: array<nat>,
                   ranks: array<nat>, n: nat, ghost live: seq<nat>) returns (done: bool, ghost live': seq<nat>)
    requires Serves(table, m) && SmallIds(m) && Buffers(table, symbols, next, prev) && 2 <= n < SHORT_MERGE_MAX
    requires ranks.Length == SHORT_MERGE_MAX && Foreign(table, ranks)
    requires ranks != symbols && ranks != next && ranks != prev
    requires Running(m, symbols[..n], next[..n], prev[..n], ranks[..n], live, n)
    modifies symbols, next, prev, ranks
    ensures Running(m, symbols[..n], next[..n], prev[..n], ranks[..n], live', n)
    ensures Outcome(m, symbols[..n], live') == Outcome(m, old(symbols[..n]), live)
    ensures done ==> Exhausted(ranks[..n])
    ensures !done ==> |live'| < |live|
  {
    hide Serves, SmallIds, Outcome, Running, Chosen, Refreshed;
    live' := live;
    var best, pos := ScanLowest(ranks, n - 1);
    done := best == U32_MAX;
    if !done {
      ghost var k := LowestIsChosen(m, symbols[..n], next[..n], prev[..n], ranks[..n], live, n, pos);
      ghost var was := ranks[..n];
      var dead, more, here, left, before := MergeChosen(table, m, symbols, next, prev, n, pos, best, was, live, k);
      StoreRanks(ranks, n, pos, dead, here, left, before);
      live' := Unlink(live, k);
    }
  }

  /**
   The scalar loop for 2 to 15 symbols over a table that serves the merges: it leaves the
   merge of the rule.
   */
  method MergeShort(table: PairRankTable, ghost m: Merges, symbols: array<Token>, n: nat) returns (len: nat)
    requires Serves(table, m) && symbols.Length == SHORT_MERGE_MAX && 2 <= n < SHORT_MERGE_MAX
    requires Narrow(symbols[..n]) && Foreign(table, symbols)
    modifies symbols
    ensures len <= n && symbols[..len] == Greedy(m, old(symbols[..n]))
  {
    ServedMerges(table, m);
    hide Serves, RanksCurrent, Linked, Narrow, SmallIds, IdRanked, Greedy, Outcome, Running, Exhausted;
    var next, prev := InitLinks(SHORT_MERGE_MAX, n, n, START_MARK);
    var ranks := ReadRanks(table, m, symbols, n);
    ghost var live := AllPositions(n);
    StartsRunning(m, symbols[..n], next[..n], prev[..n], ranks[..n], n);
    var done := false;
    while !done
      invariant Serves(table, m) && Running(m, symbols[..n], next[..n], prev[..n], ranks[..n], live, n)
      invariant Outcome(m, symbols[..n], live) == Greedy(m, old(symbols[..n]))
      invariant done ==> Exhausted(ranks[..n])
      decreases !done, |live|
    {
      done, live := ShortTurn(table, m, symbols, next, prev, ranks, n, live);
    }
    len := Finish(m, symbols, next, n, prev[..n], ranks[..n], live);
  }

  // ------------------------------------------------------------------
  // The scan over packed lanes
  // ------------------------------------------------------------------

  const TWO_32: nat := 0x1_0000_0000

  /** Packed values from here on stand for "no merge". */
  const NO_MERGE_FLOOR: nat := 0xFFFF_FF00

  /** Rank and position in one lane: `(rank << 8) | i` in 32 bits. */
  function PackLane(rank: nat, i: nat): nat
    requires i < SHORT_MERGE_MAX
  {
    rank * 256 % TWO_32 + i
  }

  /** Small ranks pack without loss and below the floor, the reserved one at or above it. */
  lemma PackLaneExact(rank: nat, i: nat)
    requires i < SHORT_MERGE_MAX && (rank == U32_MAX || rank < ID_LIMIT)
    ensures rank == U32_MAX ==> NO_MERGE_FLOOR <= PackLane(rank, i) <= U32_MAX
    ensures rank < ID_LIMIT ==>
              && PackLane(rank, i) == rank * 256 + i < NO_MERGE_FLOOR
              && PackLane(rank, i) / 256 == rank && PackLane(rank, i) % 256 == i
  {
  }

  /** Lane `i` stands for `rank` at position `i`. */
  predicate LaneFor(lane: nat, rank: nat, i: nat) {
    lane <= U32_MAX && if rank == U32_MAX then NO_MERGE_FLOOR <= lane else rank < ID_LIMIT && lane == rank * 256 + i
  }

  /** The lanes stand for the ranks; those beyond hold no merge. */
  ghost predicate Lanes(lanes: seq<nat>, ranks: seq<nat>) {
    && |ranks| <= |lanes| == SHORT_MERGE_MAX
    && (forall i :: 0 <= i < |ranks| ==> LaneFor(lanes[i], ranks[i], i))
    && forall i :: |ranks| <= i < SHORT_MERGE_MAX ==> lanes[i] == U32_MAX
  }

  /** The least lane names the leftmost lowest rank. */
  lemma LeastLane(lanes: seq<nat>, ranks: seq<nat>, at: nat)
    requires Lanes(lanes, ranks) && at < |lanes| && forall i :: 0 <= i < |lanes| ==> lanes[at] <= lanes[i]
    ensures lanes[at] >= NO_MERGE_FLOOR ==> forall i :: 0 <= i < |ranks| ==> ranks[i] == U32_MAX
    ensures lanes[at] < NO_MERGE_FLOOR ==>
              && at < |ranks| && lanes[at] % 256 == at && lanes[at] / 256 == ranks[at] < U32_MAX
              && (forall i :: 0 <= i < |ranks| ==> ranks[at] <= ranks[i])
              && forall i :: 0 <= i < at ==> ranks[at] < ranks[i]
  {
    forall i | 0 <= i < |ranks|
      ensures lanes[at] >= NO_MERGE_FLOOR ==> ranks[i] == U32_MAX
      ensures lanes[at] < NO_MERGE_FLOOR && at < |ranks| ==> ranks[at] <= ranks[i] && (i < at ==> ranks[at] < ranks[i])
    {
      assert lanes[at] <= lanes[i] && LaneFor(lanes[i], ranks[i], i);
      if at < |ranks| {
        assert LaneFor(lanes[at], ranks[at], at);
      }
    }
    if lanes[at] < NO_MERGE_FLOOR {
      assert at < |ranks| && LaneFor(lanes[at], ranks[at], at);
    }
  }

  /** The vector minimum: the least of all 16 lanes. */
  method LaneMinimum(lanes: array<nat>) returns (best: nat, ghost at: nat)
    requires lanes.Length == SHORT_MERGE_MAX
    ensures at < lanes.Length && lanes[at] == best && forall i :: 0 <= i < lanes.Length ==> best <= lanes[i]
  {
    best, at := lanes[0], 0;
    for i := 1 to lanes.Length
      invariant at < lanes.Length && lanes[at] == best && forall j :: 0 <= j < i ==> best <= lanes[j]
    {
      if lanes[i] < best {
        best, at := lanes[i], i;
      }
    }
  }

  /** Pack the rank lanes of the adjacent pairs. */
  method ReadLanes(table: PairRankTable, ghost m: Merges, symbols: array<Token>, n: nat)
    returns (lanes: array<nat>, ghost ranks: seq<nat>)
    requires Serves(table, m) && symbols.Length == SHORT_MERGE_MAX && 0 < n < SHORT_MERGE_MAX && Narrow(symbols[..n])
    ensures fresh(lanes) && |ranks| == n && Lanes(lanes[..], ranks)
    ensures RanksCurrent(m, symbols[..n], AllPositions(n), ranks)
  {
    hide Serves, RanksCurrent;
    var read := ReadRanks(table, m, symbols, n);
    ranks := read[..n];
    LastHasNoRank(m, symbols[..n], ranks);
    lanes := PackLanes(read, n);
  }

  method PackLanes(read: array<nat>, n: nat) returns (lanes: array<nat>)
    requires 0 < n < SHORT_MERGE_MAX == read.Length && read[n - 1] == U32_MAX
    requires forall i :: 0 <= i < n ==> read[i] == U32_MAX || read[i] < ID_LIMIT
    ensures fresh(lanes) && Lanes(lanes[..], read[..n])
  {
    hide PackLane;
    lanes := new nat[SHORT_MERGE_MAX](_ => U32_MAX);
    for i := 0 to n - 1
      invariant forall j :: 0 <= j < i ==> LaneFor(lanes[j], read[j], j)
      invariant forall j :: i <= j < SHORT_MERGE_MAX ==> lanes[j] == U32_MAX
    {
      PackLaneExact(read[i], i);
      lanes[i] := PackLane(read[i], i);
    }
  }

  /** The last position starts no pair. */
  lemma LastHasNoRank(m: Merges, symbols: seq<Token>, ranks: seq<nat>)
    requires symbols != [] && RanksCurrent(m, symbols, AllPositions(|symbols|), ranks)
    ensures ranks[|symbols| - 1] == U32_MAX
  {
    var live := AllPositions(|symbols|);
    assert ranks[live[|symbols| - 1]] == RankAtIndex(m, symbols, live, |symbols| - 1);
  }

  /** Park the dead lane and repack the two touched ones. */
  method StoreLanes(lanes: array<nat>, ghost ranks: seq<nat>, n: nat, pos: nat, dead: nat, more: bool, here: nat,
                    left: nat, before: nat)
    requires lanes.Length == SHORT_MERGE_MAX && Lanes(lanes[..], ranks) && |ranks| == n && pos < n && dead < n
    requires if more then here == U32_MAX || here < ID_LIMIT else here == U32_MAX
    requires left < n ==> before == U32_MAX || before < ID_LIMIT
    modifies lanes
    ensures Lanes(lanes[..], Refreshed(ranks, pos, dead, here, left, before))
  {
    lanes[dead] := U32_MAX;
    PackLaneExact(here, pos);
    lanes[pos] := if more then PackLane(here, pos) else U32_MAX;
    if left < n {
      PackLaneExact(before, left);
      lanes[left] := PackLane(before, left);
    }
  }

  /** One turn of the packed loop: take the least lane, and merge its pair. */
  method LaneTurn(table: PairRankTable, ghost m: Merges, symbols: array<Token>, next: array<nat>, prev: array<nat>,
                  lanes: array<nat>, n: nat, ghost ranks: seq<nat>, ghost live: seq<nat>)
    returns (done: bool, ghost ranks': seq<nat>, ghost live': seq<nat>)
    requires Serves(table, m) && SmallIds(m) && Buffers(table, symbols, next, prev) && 2 <= n < SHORT_MERGE_MAX
    requires lanes.Length == SHORT_MERGE_MAX && Foreign(table, lanes)
    requires lanes != symbols && lanes != next && lanes != prev && Lanes(lanes[..], ranks)
    requires Running(m, symbols[..n], next[..n], prev[..n], ranks, live, n)
    modifies symbols, next, prev, lanes
    ensures Lanes(lanes[..], ranks') && Running(m, symbols[..n], next[..n], prev[..n], ranks', live', n)
    ensures Outcome(m, symbols[..n], live') == Outcome(m, old(symbols[..n]), live)
    ensures done ==> Exhausted(ranks')
    ensures !done ==> |live'| < |live|
  {
    hide Serves, SmallIds, Outcome, Running, Chosen, Refreshed, Lanes;
    ranks', live' := ranks, live;
    var best;
    ghost var at;
    best, at := LaneMinimum(lanes);
    LeastLane(lanes[..], ranks, at);
    done := best >= NO_MERGE_FLOOR;
    if !done {
      var pos, token := best % 256, best / 256;
      ghost var k := LowestIsChosen(m, symbols[..n], next[..n], prev[..n], ranks, live, n, pos);
      var dead, more, here, left, before := MergeChosen(table, m, symbols, next, prev, n, pos, token, ranks, live, k);
      StoreLanes(lanes, ranks, n, pos, dead, more, here, left, before);
      ranks', live' := Refreshed(ranks, pos, dead, here, left, before), Unlink(live, k);
    }
  }

  /** The packed loop for 2 to 15 symbols leaves the merge of the rule as well. */
  method MergeShortPacked(table: PairRankTable, ghost m: Merges, symbols: array<Token>, n: nat) returns (len: nat)
    requires Serves(table, m) && symbols.Length == SHORT_MERGE_MAX && 2 <= n < SHORT_MERGE_MAX
    requires Narrow(symbols[..n]) && Foreign(table, symbols)
    modifies symbols
    ensures len <= n && symbols[..len] == Greedy(m, old(symbols[..n]))
  {
    ServedMerges(table, m);
    hide Serves, RanksCurrent, Linked, Narrow, SmallIds, IdRanked, Greedy, Outcome, Running, Lanes, Exhausted;
    var next, prev := InitLinks(SHORT_MERGE_MAX, n, n, START_MARK);
    var lanes;
    ghost var ranks;
    lanes, ranks := ReadLanes(table, m, symbols, n);
    ghost var live := AllPositions(n);
    StartsRunning(m, symbols[..n], next[..n], prev[..n], ranks, n);
    var done := false;
    while !done
      invariant Serves(table, m) && Lanes(lanes[..], ranks)
      invariant Running(m, symbols[..n], next[..n], prev[..n], ranks, live, n)
      invariant Outcome(m, symbols[..n], live) == Greedy(m, old(symbols[..n]))
      invariant done ==> Exhausted(ranks)
      decreases !done, |live|
    {
      done, ranks, live := LaneTurn(table, m, symbols, next, prev, lanes, n, ranks, live);
    }
    len := Finish(m, symbols, next, n, prev[..n], ranks, live);
  }
}

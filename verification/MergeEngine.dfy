/** The two public merge entry points, and when their explicit-rank routes agree. */
module MergeEngine {
  import opened Prelude
  import opened Bpe
  import opened MergeHeap
  import opened MergeScan
  import PairRanks

  /** Merge with ids as ranks: the scan for up to 32 symbols, the heap beyond. */
  method MergeByRank(m: Merges, symbols: array<Token>) returns (len: nat)
    requires symbols.Length <= U32_MAX && RanksFit(m) && IdRanked(m)
    modifies symbols
    ensures len <= symbols.Length
    ensures symbols[..len] == Greedy(Visible(m), old(symbols[..]))
  {
    if symbols.Length < 2 {
      ShortIsDone(Visible(m), symbols[..]);
      len := symbols.Length;
    } else if symbols.Length <= SMALL_MERGE_MAX {
      len := MergeSmall(m, symbols);
    } else {
      len := HeapMerge(Visible(m), symbols);
    }
  }

  /** The table the explicit-rank route works with: only its short form hides rank `U32_MAX`. */
  function RouteMerges(m: Merges, n: nat): Merges {
    if n <= SMALL_MERGE_MAX then Visible(m) else m
  }

  /** Merge with explicit ranks: the scan for up to 32 symbols, the heap beyond. */
  method MergeRanked(m: Merges, symbols: array<Token>) returns (len: nat)
    requires symbols.Length <= U32_MAX && RanksFit(m)
    modifies symbols
    ensures len <= symbols.Length
    ensures symbols[..len] == Greedy(RouteMerges(m, symbols.Length), old(symbols[..]))
  {
    if symbols.Length < 2 {
      ShortIsDone(Visible(m), symbols[..]);
      len := symbols.Length;
    } else if symbols.Length <= SMALL_MERGE_MAX {
      len := MergeRankedSlice(m, symbols);
    } else {
      len := HeapMerge(m, symbols);
    }
  }

  lemma ShortIsDone(m: Merges, s: seq<Token>)
    requires |s| < 2
    ensures Greedy(m, s) == s
  {
    NextIsBest(m, s, 0);
  }

  /** Under the empty table every sequence is final. */
  lemma NothingMerges(s: seq<Token>)
    ensures Greedy(map[], s) == s
  {
    NextIsBest(map[], s, 0);
  }

  ghost predicate NoMaxRank(m: Merges) {
    forall p :: p in m ==> m[p].rank != U32_MAX
  }

  /**
   The explicit-rank route computes the rule on every input exactly when no merge
   carries the rank the short loop reserves for "no merge".
   */
  lemma RoutesAgree(m: Merges)
    ensures (forall s: seq<Token> :: Greedy(RouteMerges(m, |s|), s) == Greedy(m, s)) <==> NoMaxRank(m)
  {
    if NoMaxRank(m) {
      assert Visible(m) == m;
    } else {
      var p: (Token, Token) :| p in m && !(m[p].rank != U32_MAX);
      var s := [p.0, p.1];
      assert forall j: nat :: Mergeable(m, s, j) ==> j == 0;
      NextIsBest(m, s, 0);
      assert |Greedy(m, s)| <= 1 by {
        ShortIsDone(m, Apply(m, s, 0));
      }
      assert (s[0], s[1]) == p && p !in Visible(m);
      NextIsBest(Visible(m), s, 0);
      assert Greedy(RouteMerges(m, |s|), s) == s;
    }
  }

  /** The merged id of every pair, as the pair-rank table stores it. */
  function PairIds(m: Merges): map<(Token, Token), nat> {
    map p | p in m :: m[p].token
  }

  /** For ids as ranks, the pair table's answers are the ranks the merge loops ask for. */
  lemma TableAnswersRanks(m: Merges, a: Token, b: Token)
    requires IdRanked(m)
    ensures PairRanks.RankIn(PairIds(m), a, b) == RankOf(m, a, b)
  {
  }
}

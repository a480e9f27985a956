/** Values used by every other module. */
module Prelude {
  datatype Option<+T> = None | Some(value: T)

  datatype Result<+T, +E> = Ok(value: T) | Err(error: E)

  type Byte = b: nat | b < 256

  const U32_MAX: nat := 0xFFFF_FFFF

  /** The longest pretoken the packed cache keys can hold. */
  const SHORT_MAX: nat := 15

  function Sum(ns: seq<nat>): nat {
    if ns == [] then 0 else Sum(ns[..|ns| - 1]) + ns[|ns| - 1]
  }
}

/**
 The reference rule of the tokenizer: merge the adjacent pair with the lowest
 rank, leftmost on ties, until no adjacent pair merges. Every fast path of the
 repository is proved against `Greedy`.
 */
module Bpe {
  import opened Prelude

  type Token = nat

  datatype Merged = Merged(rank: nat, token: Token)

  /** `(left, right) -> (rank, merged token)`. */
  type Merges = map<(Token, Token), Merged>

  predicate Mergeable(m: Merges, s: seq<Token>, i: nat) {
    i + 1 < |s| && (s[i], s[i + 1]) in m
  }

  function RankAt(m: Merges, s: seq<Token>, i: nat): nat
    requires Mergeable(m, s, i)
  {
    m[(s[i], s[i + 1])].rank
  }

  ghost predicate Irreducible(m: Merges, s: seq<Token>) {
    forall j: nat :: !Mergeable(m, s, j)
  }

  /** Pair `i` merges and no other pair has a lower `(rank, position)`. */
  ghost predicate IsBest(m: Merges, s: seq<Token>, i: nat) {
    && Mergeable(m, s, i)
    && forall j: nat :: Mergeable(m, s, j) ==>
         RankAt(m, s, i) < RankAt(m, s, j) || (RankAt(m, s, i) == RankAt(m, s, j) && i <= j)
  }

  /** The best pair among those starting before `n`. */
  function BestBefore(m: Merges, s: seq<Token>, n: nat): (best: Option<nat>)
    ensures best.None? ==> forall j: nat :: j < n ==> !Mergeable(m, s, j)
    ensures best.Some? ==> best.value < n && Mergeable(m, s, best.value)
    ensures best.Some? ==> forall j: nat :: j < n && Mergeable(m, s, j) ==>
                                              RankAt(m, s, best.value) < RankAt(m, s, j)
                                              || (RankAt(m, s, best.value) == RankAt(m, s, j) && best.value <= j)
  {
    if n == 0 then None
    else
      var best := BestBefore(m, s, n - 1);
      if !Mergeable(m, s, n - 1) then best
      else if best.Some? && RankAt(m, s, best.value) <= RankAt(m, s, n - 1) then best
      else Some(n - 1)
  }

  /** The pair the rule merges next, if any. */
  function Next(m: Merges, s: seq<Token>): Option<nat> {
    BestBefore(m, s, |s|)
  }

  /** `Next` is the lowest `(rank, position)` pair, and is absent exactly when nothing merges. */
  lemma NextIsBest(m: Merges, s: seq<Token>, i: nat)
    ensures Next(m, s) == Some(i) <==> IsBest(m, s, i)
    ensures Next(m, s).None? <==> Irreducible(m, s)
  {
    var best := BestBefore(m, s, |s|);
    if IsBest(m, s, i) && best.None? {
      assert false;
    }
  }

  /** Replace pair `i` by its merged token. */
  function Apply(m: Merges, s: seq<Token>, i: nat): (r: seq<Token>)
    requires Mergeable(m, s, i)
    ensures |r| == |s| - 1
  {
    s[..i] + [m[(s[i], s[i + 1])].token] + s[i + 2..]
  }

  /** The naive rule, run to completion. */
  function Greedy(m: Merges, s: seq<Token>): (r: seq<Token>)
    decreases |s|
  {
    if Next(m, s).None? then s else Greedy(m, Apply(m, s, Next(m, s).value))
  }

  /** The rule stops only where nothing merges. */
  lemma {:induction false} GreedyIrreducible(m: Merges, s: seq<Token>)
    ensures Irreducible(m, Greedy(m, s))
    decreases |s|
  {
    if Next(m, s).Some? {
      GreedyIrreducible(m, Apply(m, s, Next(m, s).value));
    }
  }
}

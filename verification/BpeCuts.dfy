/**
 Bytes of token sequences, token boundaries, and the three locality theorems of
 the merge rule: restriction to a part, independence across a cut that no token
 can straddle, and exact splicing of two overlapping runs.
 */
module BpeCuts {
  import opened Prelude
  import opened Bpe

  /** Token bytes by id; a gap holds the empty string. */
  type Vocab = seq<seq<Byte>>

  function TokenBytes(v: Vocab, t: Token): seq<Byte> {
    if t < |v| then v[t] else []
  }

  /** A merged token spells its two parts. */
  ghost predicate Consistent(m: Merges, v: Vocab) {
    forall p :: p in m ==> TokenBytes(v, m[p].token) == TokenBytes(v, p.0) + TokenBytes(v, p.1)
  }

  /** Every token has at least one byte. */
  ghost predicate Solid(v: Vocab, s: seq<Token>) {
    forall i :: 0 <= i < |s| ==> TokenBytes(v, s[i]) != []
  }

  function Bytes(v: Vocab, s: seq<Token>): seq<Byte> {
    if s == [] then [] else TokenBytes(v, s[0]) + Bytes(v, s[1..])
  }

  lemma {:induction false} BytesConcat(v: Vocab, s: seq<Token>, t: seq<Token>)
    ensures Bytes(v, s + t) == Bytes(v, s) + Bytes(v, t)
  {
    if s == [] {
      assert s + t == t;
    } else {
      assert (s + t)[1..] == s[1..] + t;
      BytesConcat(v, s[1..], t);
    }
  }

  lemma BytesOne(v: Vocab, t: Token)
    ensures Bytes(v, [t]) == TokenBytes(v, t)
  {
    assert [t][1..] == [];
  }

  /** One merge step keeps the spelled bytes and leaves no empty token. */
  lemma ApplyKeepsBytes(m: Merges, v: Vocab, s: seq<Token>, i: nat)
    requires Consistent(m, v) && Mergeable(m, s, i)
    ensures Bytes(v, Apply(m, s, i)) == Bytes(v, s)
    ensures Solid(v, s) ==> Solid(v, Apply(m, s, i))
  {
    hide Bytes;
    var t := m[(s[i], s[i + 1])].token;
    var pair := [s[i], s[i + 1]];
    assert s == s[..i] + pair + s[i + 2..];
    assert pair == [s[i]] + [s[i + 1]];
    BytesConcat(v, [s[i]], [s[i + 1]]);
    BytesOne(v, s[i]);
    BytesOne(v, s[i + 1]);
    BytesOne(v, t);
    BytesConcat(v, s[..i], pair);
    BytesConcat(v, s[..i] + pair, s[i + 2..]);
    BytesConcat(v, s[..i], [t]);
    BytesConcat(v, s[..i] + [t], s[i + 2..]);
  }

  /** The rule keeps the spelled bytes: decoding an encoding gives the input back. */
  lemma {:induction false} GreedyKeepsBytes(m: Merges, v: Vocab, s: seq<Token>)
    requires Consistent(m, v)
    ensures Bytes(v, Greedy(m, s)) == Bytes(v, s)
    ensures Solid(v, s) ==> Solid(v, Greedy(m, s))
    decreases |s|
  {
    var best := Next(m, s);
    if best.Some? {
      ApplyKeepsBytes(m, v, s, best.value);
      GreedyKeepsBytes(m, v, Apply(m, s, best.value));
    }
  }

  /** The rule never lengthens a sequence, and never empties one. */
  lemma {:induction false} GreedySize(m: Merges, s: seq<Token>)
    ensures |Greedy(m, s)| <= |s| && (s != [] ==> Greedy(m, s) != [])
    decreases |s|
  {
    if Next(m, s).Some? {
      GreedySize(m, Apply(m, s, Next(m, s).value));
    }
  }

  // ------------------------------------------------------------------
  // Boundaries
  // ------------------------------------------------------------------

  /** Byte position where token `k` starts. */
  function Offset(v: Vocab, s: seq<Token>, k: nat): nat
    requires k <= |s|
  {
    |Bytes(v, s[..k])|
  }

  lemma OffsetStep(v: Vocab, s: seq<Token>, k: nat)
    requires k < |s|
    ensures Offset(v, s, k + 1) == Offset(v, s, k) + |TokenBytes(v, s[k])|
  {
    assert s[..k + 1] == s[..k] + [s[k]];
    BytesConcat(v, s[..k], [s[k]]);
    BytesOne(v, s[k]);
  }

  lemma {:induction false} OffsetMonotone(v: Vocab, s: seq<Token>, j: nat, k: nat)
    requires j < k <= |s| && Solid(v, s)
    ensures Offset(v, s, j) < Offset(v, s, k)
    decreases k - j
  {
    OffsetStep(v, s, k - 1);
    if j < k - 1 {
      OffsetMonotone(v, s, j, k - 1);
    }
  }

  lemma OffsetEnd(v: Vocab, s: seq<Token>)
    ensures Offset(v, s, |s|) == |Bytes(v, s)|
    ensures Offset(v, s, 0) == 0
  {
    assert s[..|s|] == s;
  }

  /** A token of `s` starts (or the last one ends) at byte `p`. */
  ghost predicate HasBoundary(v: Vocab, s: seq<Token>, p: nat) {
    exists k: nat :: k <= |s| && Offset(v, s, k) == p
  }

  /** How many tokens lie wholly before byte `p`. */
  function CountBefore(v: Vocab, s: seq<Token>, p: nat): (k: nat)
    ensures k <= |s|
  {
    if s == [] || |TokenBytes(v, s[0])| > p then 0
    else 1 + CountBefore(v, s[1..], p - |TokenBytes(v, s[0])|)
  }

  /** The tokens wholly before byte `p`. */
  function Before(v: Vocab, s: seq<Token>, p: nat): seq<Token> {
    s[..CountBefore(v, s, p)]
  }

  lemma {:induction false} CountBeforeAt(v: Vocab, s: seq<Token>, k: nat)
    requires k <= |s| && Solid(v, s)
    ensures CountBefore(v, s, Offset(v, s, k)) == k
  {
    if k == 0 {
      assert s[..0] == [];
    } else {
      assert s[..k][1..] == s[1..][..k - 1];
      CountBeforeAt(v, s[1..], k - 1);
    }
  }

  lemma BeforeConcat(v: Vocab, x: seq<Token>, y: seq<Token>)
    requires Solid(v, x + y)
    ensures Before(v, x + y, |Bytes(v, x)|) == x
  {
    assert (x + y)[..|x|] == x;
    CountBeforeAt(v, x + y, |x|);
  }

  // ------------------------------------------------------------------
  // One step seen from a part
  // ------------------------------------------------------------------

  lemma Reassociate(x: seq<Token>, y: seq<Token>, z: seq<Token>)
    ensures x + y + z == x + (y + z)
  {
  }

  lemma StepInPrefix(m: Merges, s: seq<Token>, t: seq<Token>, i: nat)
    requires Next(m, s + t) == Some(i) && i + 1 < |s|
    ensures Next(m, s) == Some(i)
    ensures Apply(m, s + t, i) == Apply(m, s, i) + t
  {
    NextIsBest(m, s + t, i);
    assert forall j: nat :: Mergeable(m, s, j) ==> Mergeable(m, s + t, j) && RankAt(m, s, j) == RankAt(m, s + t, j);
    NextIsBest(m, s, i);
  }

  lemma StepInSuffix(m: Merges, s: seq<Token>, t: seq<Token>, i: nat)
    requires Next(m, s + t) == Some(i) && |s| <= i
    ensures Next(m, t) == Some(i - |s|)
    ensures Apply(m, s + t, i) == s + Apply(m, t, i - |s|)
  {
    NextIsBest(m, s + t, i);
    assert Mergeable(m, t, i - |s|);
    forall j: nat | Mergeable(m, t, j)
      ensures RankAt(m, t, i - |s|) < RankAt(m, t, j)
              || (RankAt(m, t, i - |s|) == RankAt(m, t, j) && i - |s| <= j)
    {
      assert Mergeable(m, s + t, |s| + j);
    }
    NextIsBest(m, t, i - |s|);
  }

  lemma DoneParts(m: Merges, s: seq<Token>, t: seq<Token>)
    requires Next(m, s + t).None?
    ensures Next(m, s).None? && Next(m, t).None?
  {
    NextIsBest(m, s + t, 0);
    forall j: nat
      ensures !Mergeable(m, s, j) && !Mergeable(m, t, j)
    {
      assert !Mergeable(m, s + t, j) && !Mergeable(m, s + t, |s| + j);
    }
    NextIsBest(m, s, 0);
    NextIsBest(m, t, 0);
  }

  // ------------------------------------------------------------------
  // Cuts that no token straddles
  // ------------------------------------------------------------------

  /** `token` spells a nonempty end of `left` followed by a nonempty start of `right`. */
  ghost predicate Straddles(token: seq<Byte>, left: seq<Byte>, right: seq<Byte>) {
    exists i: nat ::
      && 0 < i < |token| && i <= |left| && |token| - i <= |right|
      && token[..i] == left[|left| - i..] && token[i..] == right[..|token| - i]
  }

  /** No token a merge can produce straddles the cut. */
  ghost predicate CleanCut(m: Merges, v: Vocab, left: seq<Byte>, right: seq<Byte>) {
    forall p :: p in m ==> !Straddles(TokenBytes(v, m[p].token), left, right)
  }

  /** A merge across the cut would produce a straddling token. */
  lemma CrossingStraddles(m: Merges, v: Vocab, x: seq<Token>, y: seq<Token>)
    requires Consistent(m, v) && Solid(v, x + y)
    requires x != [] && y != [] && (x[|x| - 1], y[0]) in m
    ensures !CleanCut(m, v, Bytes(v, x), Bytes(v, y))
  {
    var a, b := x[|x| - 1], y[0];
    assert (x + y)[|x| - 1] == a && (x + y)[|x|] == b;
    assert x == x[..|x| - 1] + [a];
    BytesConcat(v, x[..|x| - 1], [a]);
    BytesOne(v, a);
    var left, right := Bytes(v, x), Bytes(v, y);
    var i, j := |TokenBytes(v, a)|, |TokenBytes(v, b)|;
    assert left[|left| - i..] == TokenBytes(v, a);
    assert right[..j] == TokenBytes(v, b);
    var token := TokenBytes(v, m[(a, b)].token);
    assert token[..i] == TokenBytes(v, a) && token[i..] == TokenBytes(v, b);
    assert Straddles(token, left, right);
  }

  /** Across a clean cut the two sides merge independently. */
  lemma {:induction false} SplitAtCleanCut(m: Merges, v: Vocab, x: seq<Token>, y: seq<Token>)
    requires Consistent(m, v) && Solid(v, x + y)
    requires CleanCut(m, v, Bytes(v, x), Bytes(v, y))
    ensures Greedy(m, x + y) == Greedy(m, x) + Greedy(m, y)
    decreases |x| + |y|
  {
    if Next(m, x + y).None? {
      DoneParts(m, x, y);
    } else {
      var i := Next(m, x + y).value;
      ApplyKeepsBytes(m, v, x + y, i);
      if i + 1 < |x| {
        StepInPrefix(m, x, y, i);
        ApplyKeepsBytes(m, v, x, i);
        SplitAtCleanCut(m, v, Apply(m, x, i), y);
      } else if |x| <= i {
        StepInSuffix(m, x, y, i);
        ApplyKeepsBytes(m, v, y, i - |x|);
        SplitAtCleanCut(m, v, x, Apply(m, y, i - |x|));
      } else {
        CrossingStraddles(m, v, x, y);
      }
    }
  }

  lemma StraddlesWider(token: seq<Byte>, left: seq<Byte>, right: seq<Byte>, left': seq<Byte>, right': seq<Byte>)
    requires |left'| <= |left| && left' == left[|left| - |left'|..] && right' <= right
    requires Straddles(token, left', right')
    ensures Straddles(token, left, right)
  {
    var i: nat :|
      && 0 < i < |token| && i <= |left'| && |token| - i <= |right'|
      && token[..i] == left'[|left'| - i..] && token[i..] == right'[..|token| - i];
    EndsAgree(left, left', i);
    StartsAgree(right, right', |token| - i);
    assert 0 < i < |token| && i <= |left| && |token| - i <= |right|;
  }

  lemma EndsAgree(left: seq<Byte>, left': seq<Byte>, i: nat)
    requires |left'| <= |left| && left' == left[|left| - |left'|..] && i <= |left'|
    ensures left'[|left'| - i..] == left[|left| - i..]
  {
  }

  lemma StartsAgree(right: seq<Byte>, right': seq<Byte>, n: nat)
    requires right' <= right && n <= |right'|
    ensures right'[..n] == right[..n]
  {
  }

  /** A cut stays clean when less text is looked at on either side. */
  lemma CleanCutNarrows(m: Merges, v: Vocab, left: seq<Byte>, right: seq<Byte>, left': seq<Byte>, right': seq<Byte>)
    requires CleanCut(m, v, left, right)
    requires |left'| <= |left| && left' == left[|left| - |left'|..] && right' <= right
    ensures CleanCut(m, v, left', right')
  {
    forall p | p in m
      ensures !Straddles(TokenBytes(v, m[p].token), left', right')
    {
      if Straddles(TokenBytes(v, m[p].token), left', right') {
        StraddlesWider(TokenBytes(v, m[p].token), left, right, left', right');
      }
    }
  }

  function Flatten(parts: seq<seq<Token>>): seq<Token> {
    if parts == [] then [] else parts[0] + Flatten(parts[1..])
  }

  /** Merge every part on its own and concatenate the results. */
  function GreedyEach(m: Merges, parts: seq<seq<Token>>): seq<Token> {
    if parts == [] then [] else Greedy(m, parts[0]) + GreedyEach(m, parts[1..])
  }

  /** The cut before part `k` is clean. */
  ghost predicate CleanBefore(m: Merges, v: Vocab, parts: seq<seq<Token>>, k: nat)
    requires k <= |parts|
  {
    CleanCut(m, v, Bytes(v, Flatten(parts[..k])), Bytes(v, Flatten(parts[k..])))
  }

  lemma {:induction false} FlattenConcat(a: seq<seq<Token>>, b: seq<seq<Token>>)
    ensures Flatten(a + b) == Flatten(a) + Flatten(b)
  {
    if a == [] {
      assert a + b == b;
    } else {
      assert (a + b)[1..] == a[1..] + b;
      FlattenConcat(a[1..], b);
    }
  }

  lemma FlattenOne(x: seq<Token>)
    ensures Flatten([x]) == x
  {
    var one: seq<seq<Token>> := [x];
    assert one[1..] == [];
  }

  /** Parts separated by clean cuts merge independently. */
  lemma {:induction false} SplitIntoParts(m: Merges, v: Vocab, parts: seq<seq<Token>>)
    requires Consistent(m, v) && Solid(v, Flatten(parts))
    requires forall k: nat :: 0 < k < |parts| ==> CleanBefore(m, v, parts, k)
    ensures Greedy(m, Flatten(parts)) == GreedyEach(m, parts)
    decreases |parts|
  {
    if parts == [] {
      NextIsBest(m, [], 0);
    } else if |parts| == 1 {
      assert parts[1..] == [];
      assert Flatten(parts) == parts[0];
    } else {
      var x, rest := parts[0], parts[1..];
      assert parts[..1] == [x];
      FlattenOne(x);
      assert CleanBefore(m, v, parts, 1);
      SplitAtCleanCut(m, v, x, Flatten(rest));
      SolidSuffix(v, x, Flatten(rest));
      forall k: nat | 0 < k < |rest|
        ensures CleanBefore(m, v, rest, k)
      {
        CleanInRest(m, v, parts, k);
      }
      SplitIntoParts(m, v, rest);
    }
  }

  lemma CleanInRest(m: Merges, v: Vocab, parts: seq<seq<Token>>, k: nat)
    requires parts != [] && k + 1 < |parts| && CleanBefore(m, v, parts, k + 1)
    ensures CleanBefore(m, v, parts[1..], k)
  {
    var x, rest := parts[0], parts[1..];
    assert parts[..k + 1] == [x] + rest[..k];
    assert parts[k + 1..] == rest[k..];
    FlattenConcat([x], rest[..k]);
    FlattenOne(x);
    BytesConcat(v, x, Flatten(rest[..k]));
    var right := Bytes(v, Flatten(rest[k..]));
    CleanCutNarrows(m, v, Bytes(v, x) + Bytes(v, Flatten(rest[..k])), right, Bytes(v, Flatten(rest[..k])), right);
  }

  /** `parts` are the initial symbols of the pieces of `text` between consecutive `cuts`. */
  ghost predicate PartsSpell(v: Vocab, parts: seq<seq<Token>>, text: seq<Byte>, cuts: seq<nat>) {
    && |cuts| == |parts| + 1 && cuts[0] == 0 && cuts[|parts|] == |text|
    && (forall k :: 0 <= k < |cuts| ==> cuts[k] <= |text|)
    && (forall k :: 0 <= k < |parts| ==> cuts[k] <= cuts[k + 1])
    && (forall k :: 0 <= k < |parts| ==> Bytes(v, parts[k]) == text[cuts[k]..cuts[k + 1]])
  }

  lemma {:induction false} PrefixSpells(v: Vocab, parts: seq<seq<Token>>, text: seq<Byte>, cuts: seq<nat>, k: nat)
    requires PartsSpell(v, parts, text, cuts) && k <= |parts|
    ensures Bytes(v, Flatten(parts[..k])) == text[..cuts[k]]
  {
    if k == 0 {
      assert parts[..0] == [];
    } else {
      hide Bytes, Flatten;
      PrefixSpells(v, parts, text, cuts, k - 1);
      assert parts[..k] == parts[..k - 1] + [parts[k - 1]];
      FlattenConcat(parts[..k - 1], [parts[k - 1]]);
      FlattenOne(parts[k - 1]);
      BytesConcat(v, Flatten(parts[..k - 1]), parts[k - 1]);
      assert cuts[k - 1] <= cuts[k - 1 + 1];
    }
  }

  lemma SuffixSpells(v: Vocab, parts: seq<seq<Token>>, text: seq<Byte>, cuts: seq<nat>, k: nat)
    requires PartsSpell(v, parts, text, cuts) && k <= |parts|
    ensures Bytes(v, Flatten(parts[k..])) == text[cuts[k]..]
  {
    var left, right := Flatten(parts[..k]), Flatten(parts[k..]);
    PrefixSpells(v, parts, text, cuts, k);
    PrefixSpells(v, parts, text, cuts, |parts|);
    assert parts[..|parts|] == parts == parts[..k] + parts[k..];
    FlattenConcat(parts[..k], parts[k..]);
    BytesConcat(v, left, right);
    assert text[..cuts[k]] + Bytes(v, right) == text;
  }

  lemma {:induction false} GreedyEachConcat(m: Merges, a: seq<seq<Token>>, b: seq<seq<Token>>)
    ensures GreedyEach(m, a + b) == GreedyEach(m, a) + GreedyEach(m, b)
  {
    if a == [] {
      assert a + b == b;
    } else {
      assert (a + b)[1..] == a[1..] + b;
      GreedyEachConcat(m, a[1..], b);
    }
  }

  /** Appending one part appends its symbols and its merge. */
  lemma AppendPart(m: Merges, parts: seq<seq<Token>>, x: seq<Token>)
    ensures Flatten(parts + [x]) == Flatten(parts) + x
    ensures GreedyEach(m, parts + [x]) == GreedyEach(m, parts) + Greedy(m, x)
  {
    FlattenConcat(parts, [x]);
    FlattenOne(x);
    GreedyEachConcat(m, parts, [x]);
    var one: seq<seq<Token>> := [x];
    assert one[1..] == [];
    assert GreedyEach(m, one) == Greedy(m, x) + [];
  }

  /** The cuts of a longer prefix of the text. */
  lemma AppendSpells(v: Vocab, parts: seq<seq<Token>>, text: seq<Byte>, cuts: seq<nat>, p: nat, x: seq<Token>)
    requires |cuts| > 0 && cuts[|cuts| - 1] <= p <= |text|
    requires PartsSpell(v, parts, text[..cuts[|cuts| - 1]], cuts)
    requires Bytes(v, x) == text[cuts[|cuts| - 1]..p]
    ensures PartsSpell(v, parts + [x], text[..p], cuts + [p])
  {
    hide Bytes;
    var start, parts', cuts' := cuts[|cuts| - 1], parts + [x], cuts + [p];
    forall k | 0 <= k < |parts'|
      ensures cuts'[k] <= cuts'[k + 1] && Bytes(v, parts'[k]) == text[..p][cuts'[k]..cuts'[k + 1]]
    {
      if k < |parts| {
        assert cuts[k] <= cuts[k + 1];
        assert text[..start][cuts[k]..cuts[k + 1]] == text[..p][cuts[k]..cuts[k + 1]];
      }
    }
  }

  /** Text cut only where no token can straddle merges piece by piece. */
  lemma SplitText(m: Merges, v: Vocab, parts: seq<seq<Token>>, text: seq<Byte>, cuts: seq<nat>)
    requires Consistent(m, v) && Solid(v, Flatten(parts)) && PartsSpell(v, parts, text, cuts)
    requires forall k :: 0 < k < |parts| ==> CleanCut(m, v, text[..cuts[k]], text[cuts[k]..])
    ensures Greedy(m, Flatten(parts)) == GreedyEach(m, parts)
  {
    forall k: nat | 0 < k < |parts|
      ensures CleanBefore(m, v, parts, k)
    {
      PrefixSpells(v, parts, text, cuts, k);
      SuffixSpells(v, parts, text, cuts, k);
    }
    SplitIntoParts(m, v, parts);
  }

  // ------------------------------------------------------------------
  // Initial symbols of byte-level text
  // ------------------------------------------------------------------

  /** The token of each single byte. */
  type ByteMap = s: seq<Token> | |s| == 256 witness seq(256, _ => 0)

  function ByteInit(base: ByteMap, t: seq<Byte>): (s: seq<Token>)
    ensures |s| == |t| && forall i :: 0 <= i < |t| ==> s[i] == base[t[i]]
  {
    seq(|t|, i requires 0 <= i < |t| => base[t[i]])
  }

  /** Every byte of `t` has its own single-byte token. */
  ghost predicate SpellsBytes(v: Vocab, base: ByteMap, t: seq<Byte>) {
    forall i :: 0 <= i < |t| ==> TokenBytes(v, base[t[i]]) == [t[i]]
  }

  lemma {:induction false} ByteInitSpells(v: Vocab, base: ByteMap, t: seq<Byte>)
    requires SpellsBytes(v, base, t)
    ensures Bytes(v, ByteInit(base, t)) == t && Solid(v, ByteInit(base, t))
  {
    if t != [] {
      assert ByteInit(base, t)[1..] == ByteInit(base, t[1..]);
      ByteInitSpells(v, base, t[1..]);
    }
  }

  // ------------------------------------------------------------------
  // Overlapping runs
  // ------------------------------------------------------------------

  /** A step only removes boundaries. */
  lemma ApplyBoundaries(m: Merges, v: Vocab, s: seq<Token>, i: nat, p: nat)
    requires Consistent(m, v) && Mergeable(m, s, i) && HasBoundary(v, Apply(m, s, i), p)
    ensures exists k: nat :: k <= |s| && k != i + 1 && Offset(v, s, k) == p
  {
    var r := Apply(m, s, i);
    var k: nat :| k <= |r| && Offset(v, r, k) == p;
    if k <= i {
      assert r[..k] == s[..k];
      assert Offset(v, s, k) == p;
    } else {
      var t := s[..k + 1];
      ApplyKeepsBytes(m, v, t, i);
      assert r[..k] == Apply(m, t, i) by {
        assert t[..i] == s[..i] && t[i + 2..] == s[i + 2..k + 1];
      }
      assert Offset(v, s, k + 1) == p;
    }
  }

  /** The rule only removes boundaries. */
  lemma {:induction false} GreedyBoundaries(m: Merges, v: Vocab, s: seq<Token>, p: nat)
    requires Consistent(m, v) && HasBoundary(v, Greedy(m, s), p)
    ensures HasBoundary(v, s, p)
    decreases |s|
  {
    var best := Next(m, s);
    if best.Some? {
      GreedyBoundaries(m, v, Apply(m, s, best.value), p);
      ApplyBoundaries(m, v, s, best.value, p);
    }
  }

  /** If the first step merges across the boundary after `x`, the result has no boundary there. */
  lemma CrossingStepRemoves(m: Merges, v: Vocab, x: seq<Token>, y: seq<Token>)
    requires Consistent(m, v) && Solid(v, x + y) && x != []
    requires Next(m, x + y) == Some(|x| - 1)
    ensures !HasBoundary(v, Greedy(m, x + y), |Bytes(v, x)|)
  {
    var s, i, p := x + y, |x| - 1, |Bytes(v, x)|;
    if HasBoundary(v, Greedy(m, s), p) {
      GreedyBoundaries(m, v, Apply(m, s, i), p);
      ApplyBoundaries(m, v, s, i, p);
      var k: nat :| k <= |s| && k != i + 1 && Offset(v, s, k) == p;
      assert s[..|x|] == x;
      if k < |x| {
        OffsetMonotone(v, s, k, |x|);
      } else {
        OffsetMonotone(v, s, |x|, k);
      }
      assert false;
    }
  }

  /** A step inside the first part of an overlap is a step of the left run only. */
  lemma OverlapStepLeft(m: Merges, v: Vocab, x: seq<Token>, y: seq<Token>, z: seq<Token>, i: nat)
    requires Consistent(m, v) && Solid(v, x + y + z)
    requires Next(m, x + y + z) == Some(i) && i + 1 < |x|
    ensures Mergeable(m, x, i) && Apply(m, x + y + z, i) == Apply(m, x, i) + y + z
    ensures Solid(v, Apply(m, x, i) + y + z)
    ensures Greedy(m, x + y) == Greedy(m, Apply(m, x, i) + y)
    ensures Bytes(v, Apply(m, x, i)) == Bytes(v, x)
  {
    StepInPrefix(m, x + y, z, i);
    StepInPrefix(m, x, y, i);
    ApplyKeepsBytes(m, v, x, i);
    ApplyKeepsBytes(m, v, x + y + z, i);
  }

  lemma StepInMiddle(m: Merges, x: seq<Token>, y: seq<Token>, z: seq<Token>, i: nat)
    requires Next(m, x + y + z) == Some(i) && |x| <= i && i + 1 < |x| + |y|
    ensures Next(m, x + y) == Some(i) && Next(m, y + z) == Some(i - |x|) && Next(m, y) == Some(i - |x|)
    ensures Apply(m, x + y, i) == x + Apply(m, y, i - |x|)
    ensures Apply(m, y + z, i - |x|) == Apply(m, y, i - |x|) + z
    ensures Apply(m, x + y + z, i) == x + Apply(m, y, i - |x|) + z
  {
    StepInPrefix(m, x + y, z, i);
    StepInSuffix(m, x, y, i);
    Reassociate(x, y, z);
    StepInSuffix(m, x, y + z, i);
    StepInPrefix(m, y, z, i - |x|);
  }

  /** A step inside the overlap is a step of both runs. */
  lemma OverlapStepMiddle(m: Merges, v: Vocab, x: seq<Token>, y: seq<Token>, z: seq<Token>, i: nat)
    requires Consistent(m, v) && Solid(v, x + y + z)
    requires Next(m, x + y + z) == Some(i) && |x| <= i && i + 1 < |x| + |y|
    ensures var j := i - |x|;
            && Mergeable(m, y, j) && Apply(m, x + y + z, i) == x + Apply(m, y, j) + z
            && Solid(v, x + Apply(m, y, j) + z)
            && Greedy(m, x + y) == Greedy(m, x + Apply(m, y, j))
            && Greedy(m, y + z) == Greedy(m, Apply(m, y, j) + z)
            && Bytes(v, Apply(m, y, j)) == Bytes(v, y)
  {
    StepInMiddle(m, x, y, z, i);
    ApplyKeepsBytes(m, v, y, i - |x|);
    ApplyKeepsBytes(m, v, x + y + z, i);
  }

  /** A step inside the last part of an overlap is a step of the right run only. */
  lemma OverlapStepRight(m: Merges, v: Vocab, x: seq<Token>, y: seq<Token>, z: seq<Token>, i: nat)
    requires Consistent(m, v) && Solid(v, x + y + z)
    requires Next(m, x + y + z) == Some(i) && |x| + |y| <= i
    ensures var j := i - |x| - |y|;
            && Mergeable(m, z, j) && Apply(m, x + y + z, i) == x + y + Apply(m, z, j)
            && Solid(v, x + y + Apply(m, z, j))
            && Greedy(m, y + z) == Greedy(m, y + Apply(m, z, j))
  {
    hide Bytes, Solid, Consistent;
    assert Next(m, y + z) == Some(i - |x|) by {
      Reassociate(x, y, z);
      StepInSuffix(m, x, y + z, i);
    }
    StepInSuffix(m, y, z, i - |x|);
    StepInSuffix(m, x + y, z, i);
    ApplyKeepsBytes(m, v, x + y + z, i);
  }

  lemma NeverCrossesLeftEdge(m: Merges, v: Vocab, x: seq<Token>, y: seq<Token>, z: seq<Token>, i: nat)
    requires Consistent(m, v) && Solid(v, x + y + z) && y != []
    requires HasBoundary(v, Greedy(m, x + y), |Bytes(v, x)|)
    requires Next(m, x + y + z) == Some(i)
    ensures i + 1 != |x|
  {
    if i + 1 == |x| {
      StepInPrefix(m, x + y, z, i);
      SolidPrefix(v, x + y, z);
      CrossingStepRemoves(m, v, x, y);
    }
  }

  lemma NeverCrossesRightEdge(m: Merges, v: Vocab, x: seq<Token>, y: seq<Token>, z: seq<Token>, i: nat)
    requires Consistent(m, v) && Solid(v, x + y + z) && y != []
    requires HasBoundary(v, Greedy(m, y + z), |Bytes(v, y)|)
    requires Next(m, x + y + z) == Some(i)
    ensures i + 1 != |x| + |y|
  {
    hide Bytes, Solid, Consistent, HasBoundary;
    if i + 1 == |x| + |y| {
      Reassociate(x, y, z);
      StepInSuffix(m, x, y + z, i);
      SolidSuffix(v, x, y + z);
      CrossingStepRemoves(m, v, y, z);
    }
  }

  lemma OverlapDone(m: Merges, v: Vocab, x: seq<Token>, y: seq<Token>, z: seq<Token>)
    requires Next(m, x + y + z).None? && Solid(v, x + y + z)
    ensures Greedy(m, x + y + z) == Before(v, Greedy(m, x + y), |Bytes(v, x)|) + Greedy(m, y + z)
  {
    Reassociate(x, y, z);
    DoneParts(m, x + y, z);
    DoneParts(m, x, y + z);
    SolidPrefix(v, x + y, z);
    BeforeConcat(v, x, y);
  }

  /**
   Two runs that overlap in `y` splice exactly when each keeps a boundary at the
   other's edge: the run on the whole is the first run's tokens before the second
   chunk, then the second run.
   */
  lemma {:induction false} OverlapSplices(m: Merges, v: Vocab, x: seq<Token>, y: seq<Token>, z: seq<Token>)
    requires Consistent(m, v) && Solid(v, x + y + z) && y != []
    requires HasBoundary(v, Greedy(m, x + y), |Bytes(v, x)|)
    requires HasBoundary(v, Greedy(m, y + z), |Bytes(v, y)|)
    ensures Greedy(m, x + y + z) == Before(v, Greedy(m, x + y), |Bytes(v, x)|) + Greedy(m, y + z)
    decreases |x| + |y| + |z|
  {
    hide Bytes, Before, HasBoundary, Next, Apply, Solid, Consistent;
    if Next(m, x + y + z).None? {
      OverlapDone(m, v, x, y, z);
    } else {
      var i := Next(m, x + y + z).value;
      NeverCrossesLeftEdge(m, v, x, y, z, i);
      NeverCrossesRightEdge(m, v, x, y, z, i);
      if i + 1 < |x| {
        OverlapStepLeft(m, v, x, y, z, i);
        OverlapSplices(m, v, Apply(m, x, i), y, z);
      } else if i < |x| + |y| {
        OverlapStepMiddle(m, v, x, y, z, i);
        OverlapSplices(m, v, x, Apply(m, y, i - |x|), z);
      } else {
        OverlapStepRight(m, v, x, y, z, i);
        OverlapSplices(m, v, x, y, Apply(m, z, i - |x| - |y|));
      }
    }
  }

  lemma SolidPrefix(v: Vocab, s: seq<Token>, t: seq<Token>)
    requires Solid(v, s + t)
    ensures Solid(v, s)
  {
    assert forall i :: 0 <= i < |s| ==> (s + t)[i] == s[i];
  }

  lemma SolidSuffix(v: Vocab, s: seq<Token>, t: seq<Token>)
    requires Solid(v, s + t)
    ensures Solid(v, t)
  {
    assert forall i :: 0 <= i < |t| ==> (s + t)[|s| + i] == t[i];
  }
}

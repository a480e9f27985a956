/**
 Rebuilding the merge table from a rank-ordered token list: each entry of two or
 more bytes is merged with the table so far, must end as one pair, and that pair
 is recorded with the entry's id.
 */
module FromRanks {
  import opened Prelude
  import opened Bpe
  import opened BpeCuts
  import opened MergeScan
  import opened MergeEngine
  import Utf8

  /** The id a reverse lookup finds: the last entry with these bytes. */
  function LastId(v: Vocab, t: seq<Byte>): (id: Option<nat>)
    ensures id.Some? ==> id.value < |v| && v[id.value] == t
    ensures forall i :: 0 <= i < |v| && v[i] == t ==> id.Some? && i <= id.value
  {
    if v == [] then None
    else if v[|v| - 1] == t then Some(|v| - 1)
    else LastId(v[..|v| - 1], t)
  }

  /** The id the byte remapping holds: the first single-byte entry. */
  function FirstId(v: Vocab, t: seq<Byte>): (id: Option<nat>)
    ensures id.Some? ==> id.value < |v| && v[id.value] == t
    ensures forall i :: 0 <= i < |v| && v[i] == t ==> id.Some? && id.value <= i
  {
    if v == [] then None
    else
      var before := FirstId(v[..|v| - 1], t);
      if before.Some? then before
      else if v[|v| - 1] == t then Some(|v| - 1)
      else None
  }

  /** A byte's symbol while rebuilding: its id narrowed to eight bits. */
  function LoadSymbol(v: Vocab, b: Byte): Option<Token> {
    var id := LastId(v, [b]);
    if id.None? then None else Some(id.value % 256)
  }

  function LoadSymbols(v: Vocab, t: seq<Byte>): (s: Option<seq<Token>>)
    ensures s.Some? ==> |s.value| == |t| && forall i :: 0 <= i < |t| ==> LoadSymbol(v, t[i]) == Some(s.value[i])
    ensures s.None? <==> exists i :: 0 <= i < |t| && LoadSymbol(v, t[i]).None?
  {
    if t == [] then Some([])
    else
      var first, rest := LoadSymbol(v, t[0]), LoadSymbols(v, t[1..]);
      if first.None? || rest.None? then None else Some([first.value] + rest.value)
  }

  /** The table after the first `k` entries; `None` when the rebuild gives up. */
  function TableAfter(v: Vocab, k: nat): Option<Merges>
    requires k <= |v|
  {
    if k == 0 then Some(map[])
    else
      var before := TableAfter(v, k - 1);
      if before.None? || |v[k - 1]| < 2 then before
      else
        var symbols := LoadSymbols(v, v[k - 1]);
        if symbols.None? then None
        else
          var pair := Greedy(before.value, symbols.value);
          if |pair| != 2 then None
          else Some(before.value[(pair[0], pair[1]) := Merged(k - 1, k - 1)])
  }

  // ------------------------------------------------------------------
  // The byte remapping
  // ------------------------------------------------------------------

  /** Whether a byte can stand in well-formed UTF-8 at all. */
  predicate InText(b: Byte) {
    b != 0xC0 && b != 0xC1 && b < 0xF5
  }

  /** Every byte that can stand in text has a token of its own. */
  ghost predicate CoversText(v: Vocab) {
    forall b: Byte :: InText(b) ==> FirstId(v, [b]).Some?
  }

  /** The encoder's symbol for a byte: its first id, or the placeholder 0. */
  function EncoderSymbol(v: Vocab, b: Byte): Token {
    var id := FirstId(v, [b]);
    if id.None? then 0 else id.value
  }

  function EncoderMap(v: Vocab): ByteMap {
    seq(256, b requires 0 <= b < 256 => EncoderSymbol(v, b))
  }

  function IdentityMap(): ByteMap {
    seq(256, b requires 0 <= b < 256 => b)
  }

  /** The map in effect: no remapping stands for the identity. */
  function InEffect(remap: Option<ByteMap>): ByteMap {
    if remap.None? then IdentityMap() else remap.value
  }

  datatype LoadError = MissingByte | NotAPair | NoByteToken

  lemma FirstIdStep(v: Vocab, k: nat, t: seq<Byte>)
    requires k < |v|
    ensures FirstId(v[..k + 1], t) ==
            if FirstId(v[..k], t).Some? then FirstId(v[..k], t) else if v[k] == t then Some(k) else None
  {
    assert v[..k + 1][..k] == v[..k];
  }

  /** Scan the entries for single bytes; the lowest id wins. */
  method ScanBytes(v: Vocab) returns (mapping: array<nat>)
    requires |v| < U32_MAX
    ensures fresh(mapping) && mapping.Length == 256
    ensures forall b: Byte ::
              mapping[b] == if FirstId(v, [b]).None? then U32_MAX else FirstId(v, [b]).value
  {
    mapping := new nat[256](_ => U32_MAX);
    for k := 0 to |v|
      invariant forall b: Byte ::
          mapping[b] == if FirstId(v[..k], [b]).None? then U32_MAX else FirstId(v[..k], [b]).value
    {
      hide FirstId;
      forall b: Byte {
        FirstIdStep(v, k, [b]);
      }
      if |v[k]| == 1 {
        assert v[k] == [v[k][0]];
        if mapping[v[k][0]] == U32_MAX {
          mapping[v[k][0]] := k;
        }
      }
    }
    assert v[..|v|] == v;
  }

  /**
   The byte remapping of a vocabulary: refused exactly when a byte of text has no token of
   its own, absent when it is the identity. Other bytes without a token get id 0.
   */
  method FromByteVocab(v: Vocab) returns (r: Result<Option<ByteMap>, LoadError>)
    requires |v| < U32_MAX
    ensures r == Err(NoByteToken) <==> !CoversText(v)
    ensures r.Ok? <==> CoversText(v)
    ensures r.Ok? ==> InEffect(r.value) == EncoderMap(v)
    ensures r.Ok? ==> forall b: Byte ::
              InEffect(r.value)[b] == if FirstId(v, [b]).Some? then FirstId(v, [b]).value else 0
    ensures r.Ok? ==> (r.value.None? <==> EncoderMap(v) == IdentityMap())
  {
    var mapping := ScanBytes(v);
    hide FirstId;
    for b := 0 to 256
      invariant forall c: Byte :: c < b && InText(c) ==> FirstId(v, [c]).Some?
    {
      var c: Byte := b;
      assert mapping[c] == if FirstId(v, [c]).None? then U32_MAX else FirstId(v, [c]).value;
      if mapping[b] == U32_MAX && InText(b) {
        return Err(NoByteToken);
      }
    }
    var identity := true;
    for b := 0 to 256
      invariant forall c: Byte :: c < b ==> mapping[c] == EncoderSymbol(v, c)
      invariant forall c: Byte :: b <= c ==>
          mapping[c] == if FirstId(v, [c]).None? then U32_MAX else FirstId(v, [c]).value
      invariant identity <==> forall c: Byte :: c < b ==> EncoderSymbol(v, c) == c
    {
      var c: Byte := b;
      if mapping[c] == U32_MAX {
        mapping[c] := 0;
      }
      identity := identity && mapping[c] == c;
    }
    assert mapping[..] == EncoderMap(v);
    assert !identity ==> exists c: Byte :: EncoderMap(v)[c] != IdentityMap()[c];
    r := Ok(if identity then None else Some(mapping[..]));
  }

  /** Bytes of valid text can stand in text. */
  lemma {:induction false} TextBytes(t: seq<Byte>, i: nat)
    requires Utf8.Valid(t) && i < |t|
    ensures InText(t[i])
    decreases |t|
  {
    var w := Utf8.CharWidth(t);
    if i >= w {
      TextBytes(t[w..], i - w);
    }
  }

  /** A vocabulary that loads has a token for every byte of every valid text. */
  lemma TextIsSpelled(v: Vocab, t: seq<Byte>)
    requires CoversText(v) && Utf8.Valid(t)
    ensures SpellsBytes(v, EncoderMap(v), t)
  {
    hide FirstId, Utf8.Valid;
    forall i | 0 <= i < |t|
      ensures TokenBytes(v, EncoderMap(v)[t[i]]) == [t[i]]
    {
      TextBytes(t, i);
      assert FirstId(v, [t[i]]).Some?;
    }
  }

  // ------------------------------------------------------------------
  // Rebuilding
  // ------------------------------------------------------------------

  datatype Loaded = Loaded(merges: Merges, remap: Option<ByteMap>)

  /** Entry `k` is the one at which the rebuild stops, because a byte is missing or no pair is left. */
  ghost predicate StopsAt(v: Vocab, k: nat, error: LoadError) {
    && k < |v| && |v[k]| >= 2 && TableAfter(v, k).Some?
    && var symbols := LoadSymbols(v, v[k]);
       if error.MissingByte? then symbols.None?
       else symbols.Some? && |Greedy(TableAfter(v, k).value, symbols.value)| != 2
  }

  /**
   The rebuild loop computes `TableAfter` of the whole list, and the byte remapping is built
   last. A vocabulary loads if and only if both exist; each refusal has its cause.
   */
  method Rebuild(v: Vocab) returns (r: Result<Loaded, LoadError>)
    requires |v| < U32_MAX && forall i :: 0 <= i < |v| ==> |v[i]| <= U32_MAX
    ensures r.Ok? <==> TableAfter(v, |v|).Some? && CoversText(v)
    ensures r.Ok? ==> TableAfter(v, |v|) == Some(r.value.merges) && InEffect(r.value.remap) == EncoderMap(v)
    ensures r == Err(NoByteToken) <==> TableAfter(v, |v|).Some? && !CoversText(v)
    ensures r.Err? && !r.error.NoByteToken? ==> exists k :: StopsAt(v, k, r.error)
  {
    hide Greedy, LoadSymbols, CoversText, EncoderMap, InEffect;
    var merges: Merges := map[];
    for k := 0 to |v|
      invariant TableAfter(v, k) == Some(merges)
    {
      if |v[k]| >= 2 {
        var symbols := LoadSymbols(v, v[k]);
        if symbols.None? {
          FailureSticks(v, k + 1, |v|);
          assert StopsAt(v, k, MissingByte);
          return Err(MissingByte);
        }
        TableRanks(v, k, merges);
        assert Visible(merges) == merges;
        var work := new Token[|symbols.value|](i requires 0 <= i < |symbols.value| => symbols.value[i]);
        assert work[..] == symbols.value;
        var len := MergeByRank(merges, work);
        if len != 2 {
          FailureSticks(v, k + 1, |v|);
          assert StopsAt(v, k, NotAPair);
          return Err(NotAPair);
        }
        merges := merges[(work[0], work[1]) := Merged(k, k)];
      }
    }
    var remap := FromByteVocab(v);
    if remap.Err? {
      return Err(NoByteToken);
    }
    r := Ok(Loaded(merges, remap.value));
  }

  lemma {:induction false} FailureSticks(v: Vocab, j: nat, k: nat)
    requires j <= k <= |v| && TableAfter(v, j).None?
    ensures TableAfter(v, k).None?
    decreases k
  {
    hide Greedy, LoadSymbols;
    if j < k {
      FailureSticks(v, j, k - 1);
    }
  }

  /** The table so far ranks every merge by its own id, below the entries still to come. */
  lemma {:induction false} TableRanks(v: Vocab, k: nat, m: Merges)
    requires k <= |v| && TableAfter(v, k) == Some(m)
    ensures forall p :: p in m ==> m[p].token == m[p].rank < k
    decreases k
  {
    hide Greedy, LoadSymbols;
    if k > 0 {
      TableRanks(v, k - 1, TableAfter(v, k - 1).value);
    }
  }

  /** One entry adds at most one pair, absent from the table before it. */
  lemma RecordIsNew(v: Vocab, k: nat, before: Merges, after: Merges)
    requires k < |v| && TableAfter(v, k) == Some(before) && TableAfter(v, k + 1) == Some(after)
    ensures forall p :: p in before ==> p in after && after[p] == before[p]
    ensures forall p :: p in after && p !in before ==> after[p] == Merged(k, k)
    ensures |v[k]| >= 2 ==>
              && LoadSymbols(v, v[k]).Some?
              && var pair := Greedy(before, LoadSymbols(v, v[k]).value);
                 |pair| == 2 && (pair[0], pair[1]) !in before && after == before[(pair[0], pair[1]) := Merged(k, k)]
  {
    hide Greedy, LoadSymbols;
    if |v[k]| >= 2 {
      var s := LoadSymbols(v, v[k]).value;
      GreedyIrreducible(before, s);
      assert !Mergeable(before, Greedy(before, s), 0);
    }
  }

  /** No merge pair is ever overwritten: earlier tables are contained in later ones. */
  lemma {:induction false} NeverOverwritten(v: Vocab, j: nat, k: nat, mj: Merges, mk: Merges)
    requires j <= k <= |v| && TableAfter(v, j) == Some(mj) && TableAfter(v, k) == Some(mk)
    ensures forall p :: p in mj ==> p in mk && mk[p] == mj[p]
    decreases k
  {
    hide Greedy, LoadSymbols;
    if j < k {
      var before := TableAfter(v, k - 1).value;
      NeverOverwritten(v, j, k - 1, mj, before);
      RecordIsNew(v, k - 1, before, mk);
    }
  }

  /** Merges ranked above all of `m` wait until `m` has nothing left to do. */
  lemma {:induction false} HigherRanksWait(m: Merges, big: Merges, bound: nat, s: seq<Token>)
    requires forall p :: p in m ==> p in big && big[p] == m[p] && m[p].rank < bound
    requires forall p :: p in big && p !in m ==> bound <= big[p].rank
    ensures Greedy(big, s) == Greedy(big, Greedy(m, s))
    decreases |s|
  {
    if Next(m, s).Some? {
      var i := Next(m, s).value;
      NextIsBest(m, s, i);
      forall j: nat | Mergeable(big, s, j)
        ensures RankAt(big, s, i) < RankAt(big, s, j) || (RankAt(big, s, i) == RankAt(big, s, j) && i <= j)
      {
        assert Mergeable(m, s, j) || bound <= RankAt(big, s, j);
      }
      NextIsBest(big, s, i);
      assert Apply(big, s, i) == Apply(m, s, i);
      HigherRanksWait(m, big, bound, Apply(m, s, i));
    }
  }

  lemma {:induction false} LaterRanksHigher(v: Vocab, j: nat, k: nat, mj: Merges, mk: Merges)
    requires j <= k <= |v| && TableAfter(v, j) == Some(mj) && TableAfter(v, k) == Some(mk)
    ensures forall p :: p in mk && p !in mj ==> j <= mk[p].rank
    decreases k
  {
    hide Greedy, LoadSymbols;
    if j < k {
      var before := TableAfter(v, k - 1).value;
      LaterRanksHigher(v, j, k - 1, mj, before);
      RecordIsNew(v, k - 1, before, mk);
    }
  }

  /** Under the finished table every entry's load symbols merge to exactly that entry. */
  lemma EntryMergesToItself(v: Vocab, m: Merges, k: nat)
    requires TableAfter(v, |v|) == Some(m) && k < |v| && |v[k]| >= 2
    ensures LoadSymbols(v, v[k]).Some? && Greedy(m, LoadSymbols(v, v[k]).value) == [k]
  {
    hide Greedy, LoadSymbols;
    TableExists(v, k);
    TableExists(v, k + 1);
    var before, after := TableAfter(v, k).value, TableAfter(v, k + 1).value;
    RecordIsNew(v, k, before, after);
    var s := LoadSymbols(v, v[k]).value;
    var pair := Greedy(before, s);
    TableRanks(v, k, before);
    NeverOverwritten(v, k, |v|, before, m);
    NeverOverwritten(v, k + 1, |v|, after, m);
    LaterRanksHigher(v, k, |v|, before, m);
    HigherRanksWait(before, m, k, s);
    assert (pair[0], pair[1]) in after && m[(pair[0], pair[1])] == Merged(k, k);
    PairMerges(m, pair);
  }

  lemma TableExists(v: Vocab, k: nat)
    requires k <= |v| && TableAfter(v, |v|).Some?
    ensures TableAfter(v, k).Some?
  {
    if TableAfter(v, k).None? {
      FailureSticks(v, k, |v|);
    }
  }

  lemma PairMerges(m: Merges, pair: seq<Token>)
    requires |pair| == 2 && (pair[0], pair[1]) in m
    ensures Greedy(m, pair) == [m[(pair[0], pair[1])].token]
  {
    assert forall j: nat :: Mergeable(m, pair, j) ==> j == 0;
    NextIsBest(m, pair, 0);
    ShortIsDone(m, Apply(m, pair, 0));
  }

  // ------------------------------------------------------------------
  // What the finished tokenizer encodes
  // ------------------------------------------------------------------

  function EncoderSymbols(v: Vocab, t: seq<Byte>): (s: seq<Token>)
    ensures |s| == |t| && forall i :: 0 <= i < |t| ==> s[i] == EncoderSymbol(v, t[i])
  {
    ByteInit(EncoderMap(v), t)
  }

  /** No two ids spell the same nonempty bytes. */
  ghost predicate Distinct(v: Vocab) {
    forall i, j :: 0 <= i < j < |v| && v[i] == v[j] ==> v[i] == []
  }

  /** Every byte of an entry of two or more bytes has a single-byte id below 256. */
  ghost predicate NarrowBytes(v: Vocab) {
    forall k, i :: 0 <= k < |v| && 0 <= i < |v[k]| && |v[k]| >= 2 ==> EncoderSymbol(v, v[k][i]) < 256
  }

  lemma SameId(v: Vocab, b: Byte)
    requires Distinct(v)
    ensures LastId(v, [b]) == FirstId(v, [b])
  {
  }

  lemma SymbolsAgree(v: Vocab, t: seq<Byte>)
    requires Distinct(v) && LoadSymbols(v, t).Some?
    ensures forall i :: 0 <= i < |t| ==> LoadSymbols(v, t).value[i] == EncoderSymbol(v, t[i]) % 256
    ensures forall i :: 0 <= i < |t| ==> TokenBytes(v, EncoderSymbol(v, t[i])) == [t[i]]
  {
    hide Distinct;
    forall i | 0 <= i < |t|
      ensures LoadSymbols(v, t).value[i] == EncoderSymbol(v, t[i]) % 256
      ensures TokenBytes(v, EncoderSymbol(v, t[i])) == [t[i]]
    {
      assert LoadSymbol(v, t[i]) == Some(LoadSymbols(v, t).value[i]);
      SameId(v, t[i]);
    }
  }

  /** Under narrow byte ids the encoder starts from exactly the symbols the rebuild used. */
  lemma SameStart(v: Vocab, m: Merges, k: nat)
    requires TableAfter(v, |v|) == Some(m) && Distinct(v) && NarrowBytes(v)
    requires k < |v| && |v[k]| >= 2
    ensures LoadSymbols(v, v[k]) == Some(EncoderSymbols(v, v[k]))
  {
    hide Greedy, LoadSymbols, TableAfter, Distinct;
    EntryMergesToItself(v, m, k);
    SymbolsAgree(v, v[k]);
    var a, b := LoadSymbols(v, v[k]).value, EncoderSymbols(v, v[k]);
    forall i | 0 <= i < |a|
      ensures a[i] == b[i]
    {
      assert EncoderSymbol(v, v[k][i]) < 256;
    }
    assert a == b;
  }

  /** A symbol no merge takes survives the rule. */
  lemma {:induction false} UnusedSurvives(m: Merges, s: seq<Token>, x: Token)
    requires x in s && forall p :: p in m ==> p.0 != x && p.1 != x
    ensures x in Greedy(m, s)
    decreases |s|
  {
    if Next(m, s).Some? {
      var i := Next(m, s).value;
      var at :| 0 <= at < |s| && s[at] == x;
      var r := Apply(m, s, i);
      assert r[if at < i then at else at - 1] == x;
      UnusedSurvives(m, r, x);
    }
  }

  /** Symbols the table can mention: eight-bit values and entries of two or more bytes. */
  predicate Mentionable(v: Vocab, t: Token) {
    t < 256 || (t < |v| && |v[t]| >= 2)
  }

  lemma {:induction false} GreedySymbols(m: Merges, s: seq<Token>, v: Vocab)
    requires forall i :: 0 <= i < |s| ==> Mentionable(v, s[i])
    requires forall p :: p in m ==> Mentionable(v, m[p].token)
    ensures forall i :: 0 <= i < |Greedy(m, s)| ==> Mentionable(v, Greedy(m, s)[i])
    decreases |s|
  {
    if Next(m, s).Some? {
      GreedySymbols(m, Apply(m, s, Next(m, s).value), v);
    }
  }

  lemma {:induction false} TableMentions(v: Vocab, k: nat, m: Merges)
    requires k <= |v| && TableAfter(v, k) == Some(m)
    ensures forall p :: p in m ==> Mentionable(v, p.0) && Mentionable(v, p.1) && Mentionable(v, m[p].token)
    decreases k
  {
    hide Greedy, LoadSymbols;
    if k > 0 {
      var before := TableAfter(v, k - 1).value;
      TableMentions(v, k - 1, before);
      RecordIsNew(v, k - 1, before, m);
      if |v[k - 1]| >= 2 {
        var s := LoadSymbols(v, v[k - 1]).value;
        forall i | 0 <= i < |s|
          ensures Mentionable(v, s[i])
        {
          assert LoadSymbol(v, v[k - 1][i]) == Some(s[i]);
        }
        GreedySymbols(before, s, v);
      }
    }
  }

  /** An entry holding a byte whose id is 256 or more does not encode to itself. */
  lemma WideByteFails(v: Vocab, m: Merges, k: nat, i: nat)
    requires TableAfter(v, |v|) == Some(m) && Distinct(v)
    requires k < |v| && |v[k]| >= 2 && i < |v[k]| && EncoderSymbol(v, v[k][i]) >= 256
    ensures Greedy(m, EncoderSymbols(v, v[k])) != [k]
  {
    var x := EncoderSymbol(v, v[k][i]);
    TableMentions(v, |v|, m);
    assert |v[x]| == 1;
    assert EncoderSymbols(v, v[k])[i] == x;
    UnusedSurvives(m, EncoderSymbols(v, v[k]), x);
  }

  /** All single bytes, moved up so that `b` gets id 256, and one entry that holds `b` twice. */
  function WideVocab(b: Byte): Vocab {
    seq(256 - b, _ => []) + seq(256, x requires 0 <= x < 256 => [x]) + [[b, b]]
  }

  lemma {:induction false} ShortEntriesAddNothing(v: Vocab, k: nat)
    requires k <= |v| && forall i :: 0 <= i < k ==> |v[i]| < 2
    ensures TableAfter(v, k) == Some(map[])
  {
    if k > 0 {
      ShortEntriesAddNothing(v, k - 1);
    }
  }

  /** For every byte some vocabulary loads with that byte wide, and one entry fails to encode to itself. */
  lemma WideByteLoads(b: Byte)
    ensures var v := WideVocab(b);
            && TableAfter(v, |v|).Some? && CoversText(v) && Distinct(v) && !NarrowBytes(v)
            && Greedy(TableAfter(v, |v|).value, EncoderSymbols(v, v[|v| - 1])) != [|v| - 1]
  {
    hide TableAfter, LoadSymbols, Greedy;
    var v := WideVocab(b);
    var k := |v| - 1;
    assert v[k] == [b, b] && v[256] == [b];
    assert forall x: Byte :: v[256 - b + x] == [x];
    assert EncoderSymbol(v, b) == 256 && LoadSymbol(v, b) == Some(0);
    assert EncoderSymbol(v, v[k][0]) >= 256;
    ShortEntriesAddNothing(v, k);
    PairLoads(v, b);
    WideByteFails(v, TableAfter(v, |v|).value, k, 0);
  }

  lemma PairLoads(v: Vocab, b: Byte)
    requires v != [] && v[|v| - 1] == [b, b] && LoadSymbol(v, b).Some? && TableAfter(v, |v| - 1) == Some(map[])
    ensures TableAfter(v, |v|).Some?
  {
    hide Greedy;
    var s := LoadSymbols(v, [b, b]);
    assert s.Some? && |s.value| == 2;
    NothingMerges(s.value);
  }

  /**
   The finished tokenizer encodes every nonempty entry to exactly its own id if and
   only if the bytes of its longer entries have single-byte ids below 256.
   */
  lemma EntriesEncodeToThemselves(v: Vocab, m: Merges)
    requires TableAfter(v, |v|) == Some(m) && Distinct(v)
    ensures (forall k :: 0 <= k < |v| && v[k] != [] ==> Greedy(m, EncoderSymbols(v, v[k])) == [k]) <==> NarrowBytes(v)
  {
    hide Greedy, LoadSymbols, TableAfter;
    if NarrowBytes(v) {
      forall k | 0 <= k < |v| && v[k] != []
        ensures Greedy(m, EncoderSymbols(v, v[k])) == [k]
      {
        if |v[k]| == 1 {
          var b := v[k][0];
          assert v[k] == [b];
          assert EncoderSymbols(v, v[k]) == [k];
          ShortIsDone(m, [k]);
        } else {
          EntryMergesToItself(v, m, k);
          SameStart(v, m, k);
        }
      }
    } else {
      var k, i :| 0 <= k < |v| && 0 <= i < |v[k]| && |v[k]| >= 2 && !(EncoderSymbol(v, v[k][i]) < 256);
      WideByteFails(v, m, k, i);
    }
  }

  lemma RecordKeepsConsistent(v: Vocab, before: Merges, a: Token, b: Token, k: nat)
    requires Consistent(before, v) && k < |v| && v[k] == TokenBytes(v, a) + TokenBytes(v, b)
    ensures Consistent(before[(a, b) := Merged(k, k)], v)
  {
  }

  /** Under narrow byte ids each recorded merge spells its two parts. */
  lemma {:induction false} TableConsistent(v: Vocab, k: nat, m: Merges)
    requires k <= |v| && TableAfter(v, k) == Some(m) && TableAfter(v, |v|).Some?
    requires Distinct(v) && NarrowBytes(v)
    ensures Consistent(m, v)
    decreases k
  {
    hide Greedy, LoadSymbols, EncoderSymbols, NarrowBytes, Distinct, Bytes, Consistent;
    if k == 0 {
      EmptyConsistent(v);
    } else {
      var before := TableAfter(v, k - 1).value;
      TableConsistent(v, k - 1, before);
      if |v[k - 1]| >= 2 {
        var pair := Greedy(before, LoadSymbols(v, v[k - 1]).value);
        RecordedPairSpells(v, k - 1, before);
        RecordKeepsConsistent(v, before, pair[0], pair[1], k - 1);
      }
    }
  }

  lemma EmptyConsistent(v: Vocab)
    ensures Consistent(map[], v)
  {
  }

  lemma RecordedPairSpells(v: Vocab, k: nat, before: Merges)
    requires k < |v| && |v[k]| >= 2 && TableAfter(v, |v|).Some? && TableAfter(v, k) == Some(before)
    requires Distinct(v) && NarrowBytes(v) && Consistent(before, v)
    requires LoadSymbols(v, v[k]).Some? && |Greedy(before, LoadSymbols(v, v[k]).value)| == 2
    ensures var pair := Greedy(before, LoadSymbols(v, v[k]).value);
            TokenBytes(v, pair[0]) + TokenBytes(v, pair[1]) == v[k]
  {
    hide Greedy, LoadSymbols;
    var s := LoadSymbols(v, v[k]).value;
    var pair := Greedy(before, s);
    SameStart(v, TableAfter(v, |v|).value, k);
    SymbolsAgree(v, v[k]);
    ByteInitSpells(v, EncoderMap(v), v[k]);
    GreedyKeepsBytes(before, v, s);
    assert pair == [pair[0]] + [pair[1]];
    BytesConcat(v, [pair[0]], [pair[1]]);
    BytesOne(v, pair[0]);
    BytesOne(v, pair[1]);
  }
}

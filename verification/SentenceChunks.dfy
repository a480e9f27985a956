/** Chunking normalized SentencePiece text on character edges. */
module SentenceChunks {
  import opened Prelude
  import opened Bpe
  import opened BpeCuts
  import opened SentencePiece
  import opened MarkSplits
  import opened ChunkPlan
  import opened Overlap
  import Utf8

  /** Chunks are encoded on their own, each to the merge of its characters. */
  function SentenceJob(sp: Pieces, text: seq<Byte>, omega: nat): Job
    requires |sp.fallback| == 256
  {
    Job(sp.m, sp.v, t => Init(sp, t), t => Tokens(sp, false, t), text, omega, true)
  }

  /** Between two character edges the text is valid and covered. */
  lemma BetweenIsText(sp: Pieces, text: seq<Byte>, p: nat, q: nat)
    requires |sp.fallback| == 256 && Utf8.Valid(text) && Covered(sp, text)
    requires p <= q && Edge(text, true, p) && Edge(text, true, q)
    ensures Utf8.Valid(text[p..q]) && Covered(sp, text[p..q])
  {
    hide Covered, Utf8.Valid;
    Utf8.ValidSplit(text, q);
    var head := text[..q];
    assert text == head + text[q..];
    InitConcat(sp, head, text[q..]);
    assert p < q ==> head[p] == text[p];
    Utf8.ValidSplit(head, p);
    assert head == head[..p] + head[p..] && head[p..] == text[p..q];
    InitConcat(sp, head[..p], head[p..]);
  }

  lemma SentenceSymbolsFit(sp: Pieces, text: seq<Byte>, omega: nat)
    requires PiecesFit(sp) && Utf8.Valid(text) && Covered(sp, text)
    ensures SymbolsFit(SentenceJob(sp, text, omega))
  {
    hide Covered, Utf8.Valid, Bytes, Solid, Init, Utf8.IsBoundary;
    var job := SentenceJob(sp, text, omega);
    forall p: nat, q: nat | Between(job, p, q)
      ensures Bytes(job.v, job.init(text[p..q])) == text[p..q] && Solid(job.v, job.init(text[p..q]))
    {
      BetweenIsText(sp, text, p, q);
      InitSpells(sp, text[p..q]);
    }
    forall p: nat, q: nat, r: nat | Between(job, p, q) && Between(job, q, r)
      ensures job.init(text[p..r]) == job.init(text[p..q]) + job.init(text[q..r])
    {
      BetweenIsText(sp, text, p, q);
      EdgeInText(text, r);
      assert text[p..r] == text[p..q] + text[q..r];
      InitConcat(sp, text[p..q], text[q..r]);
    }
  }

  lemma EdgeInText(text: seq<Byte>, p: nat)
    requires Edge(text, true, p)
    ensures p <= |text|
  {
  }

  /** An encoding spells its chunk and leaves no empty token. */
  lemma TokensSpell(sp: Pieces, t: seq<Byte>)
    requires PiecesFit(sp) && Covered(sp, t)
    ensures Bytes(sp.v, Tokens(sp, false, t)) == t && Solid(sp.v, Tokens(sp, false, t))
  {
    InitSpells(sp, t);
    GreedyKeepsBytes(sp.m, sp.v, Init(sp, t));
  }

  /**
   Chunking normalized text on character edges is sound for every overlap: covered valid
   text is encoded chunk by chunk as in one piece.
   */
  lemma SentenceJobSound(sp: Pieces, text: seq<Byte>, omega: nat)
    requires PiecesFit(sp) && Utf8.Valid(text) && Covered(sp, text)
    ensures Sound(SentenceJob(sp, text, omega))
  {
    hide Covered, Utf8.Valid, Bytes, Solid, Init, Utf8.IsBoundary, SymbolsFit, Consistent;
    SentenceSymbolsFit(sp, text, omega);
    var job := SentenceJob(sp, text, omega);
    forall p: nat, q: nat | Encodable(job, p, q)
      ensures Bytes(job.v, job.encode(text[p..q])) == text[p..q] && Solid(job.v, job.encode(text[p..q]))
    {
      BetweenIsText(sp, text, p, q);
      TokensSpell(sp, text[p..q]);
    }
  }

  /** Chunks of a tokenizer that splits at every mark: each is split and encoded on its own. */
  ghost function MarkJob(sp: Pieces, text: seq<Byte>, omega: nat): Job
    requires |sp.fallback| == 256
  {
    Job(MarkFirst(sp).m, sp.v, t => Init(sp, t), t => Units(sp, true, false, false, t), text, omega, true)
  }

  /** Chunking is as sound for the tokenizer that splits at every mark. */
  lemma MarkJobSound(sp: Pieces, text: seq<Byte>, omega: nat)
    requires PiecesFit(sp) && Utf8.Valid(text) && Covered(sp, text)
    ensures Sound(MarkJob(sp, text, omega))
  {
    hide Covered, Utf8.Valid, Bytes, Solid, Init, Utf8.IsBoundary, SymbolsFit, Units, PiecesFit;
    MarkFirstFits(sp);
    FitsIsConsistent(MarkFirst(sp));
    SentenceSymbolsFit(sp, text, omega);
    var job := MarkJob(sp, text, omega);
    SameSymbols(SentenceJob(sp, text, omega), job);
    forall p: nat, q: nat | Between(job, p, q)
      ensures job.encode(text[p..q]) == Greedy(job.m, job.init(text[p..q]))
      ensures Bytes(job.v, job.encode(text[p..q])) == text[p..q] && Solid(job.v, job.encode(text[p..q]))
    {
      BetweenIsText(sp, text, p, q);
      EveryMarkIsOneMerge(sp, text[p..q]);
      InitSpells(sp, text[p..q]);
      GreedyKeepsBytes(job.m, job.v, job.init(text[p..q]));
    }
  }

  lemma FitsIsConsistent(sp: Pieces)
    requires PiecesFit(sp)
    ensures Consistent(sp.m, sp.v) && |sp.fallback| == 256
  {
  }

  /** Initial symbols do not depend on the merges or the encoder. */
  lemma SameSymbols(a: Job, b: Job)
    requires a.v == b.v && a.init == b.init && a.text == b.text && a.codepointEdges == b.codepointEdges
    ensures SymbolsFit(a) <==> SymbolsFit(b)
  {
    hide Bytes, Solid;
    assert forall p: nat, q: nat :: Between(a, p, q) <==> Between(b, p, q);
  }
}

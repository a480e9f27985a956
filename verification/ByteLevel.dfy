/** The byte-level model, what it encodes without any cache, and why chunking it is sound. */
module ByteLevel {
  import opened Prelude
  import opened Bpe
  import opened BpeCuts
  import opened FromRanks
  import opened Overlap

  /**
   `ignoreMerges` turns a pretoken that is a whole entry into that entry's id;
   `added` holds the added tokens, whose short contents always do; `forceSplit` is the
   build feature that cuts pretokens where no entry joins two bytes.
   */
  datatype ByteModel = ByteModel(
    m: Merges, v: Vocab, base: ByteMap, ignoreMerges: bool, added: seq<seq<Byte>>, forceSplit: bool)

  /** Added tokens short enough for the packed cache take over their own bytes. */
  predicate Overwritten(model: ByteModel, t: seq<Byte>) {
    1 <= |t| <= SHORT_MAX && t in model.added && LastId(model.v, t).Some?
  }

  /** The encoding of one pretoken, with no cache involved. */
  function Uncached(model: ByteModel, t: seq<Byte>): seq<Token> {
    if Overwritten(model, t) || (model.ignoreMerges && LastId(model.v, t).Some?) then [LastId(model.v, t).value]
    else Greedy(model.m, ByteInit(model.base, t))
  }

  /** No entry is longer than `omega` bytes. */
  ghost predicate Omega(v: Vocab, omega: nat) {
    forall i :: 0 <= i < |v| ==> |v[i]| <= omega
  }

  /** On text longer than any entry no whole-word shortcut applies. */
  lemma LongTextIsMerged(model: ByteModel, omega: nat, t: seq<Byte>)
    requires Omega(model.v, omega) && omega < |t|
    ensures Uncached(model, t) == Greedy(model.m, ByteInit(model.base, t))
  {
  }

  /** Encoding spells its input. */
  lemma UncachedSpells(model: ByteModel, t: seq<Byte>)
    requires Consistent(model.m, model.v) && SpellsBytes(model.v, model.base, t) && t != []
    ensures Bytes(model.v, Uncached(model, t)) == t && Solid(model.v, Uncached(model, t))
  {
    var id := LastId(model.v, t);
    if id.Some? {
      BytesOne(model.v, id.value);
    }
    ByteInitSpells(model.v, model.base, t);
    GreedyKeepsBytes(model.m, model.v, ByteInit(model.base, t));
  }

  function ByteJob(model: ByteModel, text: seq<Byte>, omega: nat): Job {
    Job(model.m, model.v, t => ByteInit(model.base, t), t => Uncached(model, t), text, omega, false)
  }

  lemma ByteSymbolsFit(model: ByteModel, text: seq<Byte>, omega: nat)
    requires SpellsBytes(model.v, model.base, text)
    ensures SymbolsFit(ByteJob(model, text, omega))
  {
    hide Bytes, Solid;
    var job := ByteJob(model, text, omega);
    forall p: nat, q: nat | Between(job, p, q)
      ensures Bytes(job.v, job.init(text[p..q])) == text[p..q] && Solid(job.v, job.init(text[p..q]))
    {
      ByteInitSpells(model.v, model.base, text[p..q]);
    }
    forall p: nat, q: nat, r: nat | Between(job, p, q) && Between(job, q, r)
      ensures job.init(text[p..r]) == job.init(text[p..q]) + job.init(text[q..r])
    {
      ByteInitCuts(model.base, text, p, q, r);
    }
  }

  lemma ByteInitCuts(base: ByteMap, t: seq<Byte>, p: nat, q: nat, r: nat)
    requires p <= q <= r <= |t|
    ensures ByteInit(base, t[p..r]) == ByteInit(base, t[p..q]) + ByteInit(base, t[q..r])
  {
  }

  lemma ByteEncoderFits(model: ByteModel, text: seq<Byte>, omega: nat)
    requires Consistent(model.m, model.v) && Omega(model.v, omega) && SpellsBytes(model.v, model.base, text)
    requires text != []
    ensures EncoderFits(ByteJob(model, text, omega))
  {
    hide Bytes, Solid, Uncached, Omega, Consistent;
    var job := ByteJob(model, text, omega);
    forall p: nat, q: nat | Encodable(job, p, q)
      ensures Bytes(job.v, job.encode(text[p..q])) == text[p..q] && Solid(job.v, job.encode(text[p..q]))
    {
      UncachedSpells(model, text[p..q]);
    }
    forall p: nat, q: nat | Between(job, p, q) && p + omega < q
      ensures job.encode(text[p..q]) == Greedy(job.m, job.init(text[p..q]))
    {
      LongTextIsMerged(model, omega, text[p..q]);
    }
  }

  /** Chunking a byte-level pretoken is sound for every `omega` that bounds the entries. */
  lemma ByteJobSound(model: ByteModel, text: seq<Byte>, omega: nat)
    requires Consistent(model.m, model.v) && Omega(model.v, omega) && SpellsBytes(model.v, model.base, text)
    requires text != []
    ensures Sound(ByteJob(model, text, omega))
  {
    ByteSymbolsFit(model, text, omega);
    ByteEncoderFits(model, text, omega);
  }
}

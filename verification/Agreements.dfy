/**
 Which runs of the chunk protocol ask for no enlargement: exactly those in which every two
 neighbouring chunks are encoded with the same token boundaries in their overlap.
 */
module Agreements {
  import opened Prelude
  import opened Bpe
  import opened BpeCuts
  import opened ChunkPlan
  import opened Overlap

  /** The encoder's own chunk of a range. */
  ghost function ChunkOf(job: Job, r: Range): EncodedChunk
    requires r.start <= r.end <= |job.text|
  {
    var ids := job.encode(job.text[r.start..r.end]);
    EncodedChunk(r, ids, seq(|ids| + 1, k requires 0 <= k < |ids| + 1 => r.start + Offset(job.v, ids, k)))
  }

  lemma ChunkIsExact(job: Job, r: Range)
    requires Sound(job) && Encodable(job, r.start, r.end)
    ensures r.start <= r.end <= |job.text| && ExactChunk(job, ChunkOf(job, r))
  {
    hide Bytes, Solid, Offset;
    EncodedSpells(job, r.start, r.end);
  }

  /** Past its first part, a token sequence has the boundaries of its second part. */
  lemma BoundariesAfter(v: Vocab, x: seq<Token>, y: seq<Token>, p: nat)
    requires Solid(v, x + y)
    ensures HasBoundary(v, x + y, |Bytes(v, x)| + p) <==> HasBoundary(v, y, p)
  {
    hide Bytes, Solid;
    var s := x + y;
    forall k: nat | k <= |y|
      ensures Offset(v, s, |x| + k) == |Bytes(v, x)| + Offset(v, y, k)
    {
      assert s[..|x| + k] == x + y[..k];
      BytesConcat(v, x, y[..k]);
    }
    if HasBoundary(v, y, p) {
      var k: nat :| k <= |y| && Offset(v, y, k) == p;
      assert Offset(v, s, |x| + k) == |Bytes(v, x)| + p;
    }
    if HasBoundary(v, s, |Bytes(v, x)| + p) {
      var k: nat :| k <= |s| && Offset(v, s, k) == |Bytes(v, x)| + p;
      assert Offset(v, s, |x| + 0) == |Bytes(v, x)| + Offset(v, y, 0);
      OffsetEnd(v, y);
      if k < |x| {
        OffsetMonotone(v, s, k, |x|);
      } else {
        assert Offset(v, s, |x| + (k - |x|)) == |Bytes(v, x)| + Offset(v, y, k - |x|);
      }
    }
  }

  /** Where the part joined so far has the boundaries of its last chunk's own encoding. */
  ghost predicate EndsLike(job: Job, end: nat, last: Range) {
    last.end == end && forall p: nat :: last.start <= p <= end ==>
      (EncodedBoundary(job, Range(0, end), p) <==> EncodedBoundary(job, last, p))
  }

  /** What is joined at an agreement: a part before the right chunk's start, then the right chunk. */
  lemma JoinedIsCut(job: Job, left: EncodedChunk, right: EncodedChunk) returns (x: seq<Token>)
    requires Sound(job) && ExactChunk(job, left) && ExactChunk(job, right)
    requires Overlapping(job, left.range, right.range) && Agree(job, left.range, right.range)
    ensures job.encode(job.text[left.range.start..right.range.end]) == x + right.ids
    ensures |Bytes(job.v, x)| == right.range.start - left.range.start
  {
    hide Sound, Agree, HasBoundary, Bytes, Solid, Offset, BoundariesIn, IndexOf, Overlapping;
    ListsAgree(job, left, right);
    AgreementMeetsEdges(job, left, right);
    SpliceExact(job, left, right);
    var i := IndexOf(left.boundaries, right.range.start);
    assert left.boundaries[i] == right.range.start == left.range.start + Offset(job.v, left.ids, i);
    x := left.ids[..i];
    CutSpells(job.v, left.ids, i);
  }

  /** If the encodings agree, the joined part ends like the chunk it took in. */
  lemma JoinedEndsLike(job: Job, end: nat, r: Range)
    requires Sound(job) && Encodable(job, 0, end) && Encodable(job, r.start, r.end)
    requires Overlapping(job, Range(0, end), r) && Agree(job, Range(0, end), r)
    ensures EndsLike(job, r.end, r)
  {
    ChunkIsExact(job, Range(0, end));
    ChunkIsExact(job, r);
    assert Encodable(job, 0, r.end);
    EncodedSpells(job, 0, r.end);
    hide Sound, Agree, Bytes, Solid, Offset, ExactChunk, Encodable, EncodedBoundary, Overlapping;
    var x := JoinedIsCut(job, ChunkOf(job, Range(0, end)), ChunkOf(job, r));
    forall p: nat | r.start <= p <= r.end
      ensures EncodedBoundary(job, Range(0, r.end), p) <==> EncodedBoundary(job, r, p)
    {
      LaterBoundary(job, r, x, p);
    }
  }

  lemma LaterBoundary(job: Job, r: Range, x: seq<Token>, p: nat)
    requires r.start <= p <= r.end <= |job.text|
    requires job.encode(job.text[0..r.end]) == x + job.encode(job.text[r.start..r.end])
    requires |Bytes(job.v, x)| == r.start && Solid(job.v, job.encode(job.text[0..r.end]))
    ensures EncodedBoundary(job, Range(0, r.end), p) <==> EncodedBoundary(job, r, p)
  {
    hide Bytes, Solid, HasBoundary;
    BoundariesAfter(job.v, x, job.encode(job.text[r.start..r.end]), p - r.start);
  }

  lemma CutSpells(v: Vocab, s: seq<Token>, i: nat)
    requires i <= |s|
    ensures |Bytes(v, s[..i])| == Offset(v, s, i)
  {
  }

  /** Where the joined part ends like its last chunk, the next chunk agrees with either alike. */
  lemma AgreesWithEither(job: Job, end: nat, last: Range, r: Range)
    requires EndsLike(job, end, last) && last.start <= r.start
    ensures Agree(job, Range(0, end), r) <==> Agree(job, last, r)
  {
    hide EncodedBoundary;
  }

  lemma PlanOverlaps(job: Job, ranges: seq<Range>, k: nat)
    requires job.omega > 0 && Plan(job.text, job.omega, job.codepointEdges, ranges) && 0 < k < |ranges|
    ensures Encodable(job, 0, ranges[k - 1].end) && Encodable(job, ranges[k].start, ranges[k].end)
    ensures Overlapping(job, Range(0, ranges[k - 1].end), ranges[k])
    ensures ranges[k - 1].start <= ranges[k].start
  {
    PlanEncodable(job, ranges);
    PlanEnds(job, ranges);
    assert Neighbours(job.omega, job.codepointEdges, ranges[k - 1], ranges[k]);
    assert PlanRange(job.text, job.codepointEdges, ranges[k - 1]);
    PositiveStart(job, ranges, k);
  }

  lemma {:induction false} PositiveStart(job: Job, ranges: seq<Range>, k: nat)
    requires Plan(job.text, job.omega, job.codepointEdges, ranges) && 0 < k < |ranges|
    ensures 0 < ranges[k].start
  {
    hide PlanRange;
    assert Neighbours(job.omega, job.codepointEdges, ranges[k - 1], ranges[k]);
  }

  /** From chunk `k` on, nothing is enlarged exactly when all later neighbours agree. */
  lemma {:induction false} NoneFrom(job: Job, ranges: seq<Range>, k: nat)
    requires Sound(job) && job.omega > 0 && Plan(job.text, job.omega, job.codepointEdges, ranges)
    requires 0 < k <= |ranges| && EndsLike(job, ranges[k - 1].end, ranges[k - 1])
    ensures Enlargements(job, ranges[k - 1].end, ranges[k..]) == 0
            <==> forall j :: k <= j < |ranges| ==> Agree(job, ranges[j - 1], ranges[j])
    decreases |ranges| - k
  {
    hide Sound, Plan, Agree, EndsLike;
    if k < |ranges| {
      assert ranges[k..][1..] == ranges[k + 1..];
      PlanOverlaps(job, ranges, k);
      AgreesWithEither(job, ranges[k - 1].end, ranges[k - 1], ranges[k]);
      if Agree(job, ranges[k - 1], ranges[k]) {
        JoinedEndsLike(job, ranges[k - 1].end, ranges[k]);
        NoneFrom(job, ranges, k + 1);
      }
    }
  }

  /** A run asks for no enlargement if and only if all neighbouring encodings agree. */
  lemma NoEnlargements(job: Job, ranges: seq<Range>)
    requires Sound(job) && job.omega > 0 && Plan(job.text, job.omega, job.codepointEdges, ranges)
    ensures ranges != []
    ensures PlanEnlargements(job, ranges) == 0
            <==> forall j :: 1 <= j < |ranges| ==> Agree(job, ranges[j - 1], ranges[j])
  {
    PlanEnds(job, ranges);
    hide Plan;
    assert EndsLike(job, ranges[0].end, ranges[0]);
    NoneFrom(job, ranges, 1);
  }
}

/**
 Encoding one long pretoken in overlapping chunks: each chunk is encoded on its
 own, neighbours are spliced where their token boundaries agree, and otherwise an
 enlarged range is requested from the encoder.
 */
module Overlap {
  import opened Prelude
  import opened Bpe
  import opened BpeCuts
  import opened ChunkPlan
  import Utf8

  /** One pretoken, the model that encodes it, and the encoder that is called on ranges of it. */
  datatype Job = Job(
    m: Merges, v: Vocab,
    init: seq<Byte> -> seq<Token>,
    encode: seq<Byte> -> seq<Token>,
    text: seq<Byte>, omega: nat, codepointEdges: bool)

  ghost predicate Between(job: Job, p: nat, q: nat) {
    p <= q && Edge(job.text, job.codepointEdges, p) && Edge(job.text, job.codepointEdges, q)
  }

  /** Ranges the encoder is asked for: nonempty ones, unless the whole text is empty. */
  ghost predicate Encodable(job: Job, p: nat, q: nat) {
    Between(job, p, q) && (p < q || job.text == [])
  }

  /** Initial symbols spell their bytes and are cut by every edge. */
  ghost predicate SymbolsFit(job: Job) {
    && (forall p: nat, q: nat :: Between(job, p, q) ==>
          Bytes(job.v, job.init(job.text[p..q])) == job.text[p..q] && Solid(job.v, job.init(job.text[p..q])))
    && forall p: nat, q: nat, r: nat :: Between(job, p, q) && Between(job, q, r) ==>
          job.init(job.text[p..r]) == job.init(job.text[p..q]) + job.init(job.text[q..r])
  }

  /**
   The encoder spells its input, and on more than `omega` bytes it is the merge rule:
   whole-word shortcuts only apply to texts that are one token.
   */
  ghost predicate EncoderFits(job: Job) {
    && (forall p: nat, q: nat :: Encodable(job, p, q) ==>
          Bytes(job.v, job.encode(job.text[p..q])) == job.text[p..q] && Solid(job.v, job.encode(job.text[p..q])))
    && forall p: nat, q: nat :: Between(job, p, q) && p + job.omega < q ==>
          job.encode(job.text[p..q]) == Greedy(job.m, job.init(job.text[p..q]))
  }

  ghost predicate Sound(job: Job) {
    Consistent(job.m, job.v) && SymbolsFit(job) && EncoderFits(job)
  }

  /** What the source assumes of a token's length. */
  function TokenLen(v: Vocab, id: Token): Option<nat> {
    if id < |v| && v[id] != [] then Some(|v[id]|) else None
  }

  datatype EncodedChunk = EncodedChunk(range: Range, ids: seq<Token>, boundaries: seq<nat>)

  /** The boundaries are the byte positions where the tokens start, and the end. */
  ghost predicate Measured(v: Vocab, c: EncodedChunk) {
    && c.range.start <= c.range.end
    && Solid(v, c.ids) && |Bytes(v, c.ids)| == c.range.end - c.range.start
    && |c.boundaries| == |c.ids| + 1
    && forall k :: 0 <= k < |c.boundaries| ==> c.boundaries[k] == c.range.start + Offset(v, c.ids, k)
  }

  /** Walk the tokens over the range; accept exactly when they cover it. */
  method EncodeChunk(v: Vocab, range: Range, ids: seq<Token>) returns (r: Result<EncodedChunk, ChunkError>)
    requires range.start <= range.end
    ensures r.Ok? <==> Solid(v, ids) && |Bytes(v, ids)| == range.end - range.start
    ensures r.Ok? ==> r.value.range == range && r.value.ids == ids && Measured(v, r.value)
    ensures r.Err? ==> r.error.UnknownTokenId? || r.error.TokenCoverage?
    ensures r.Err? && r.error.UnknownTokenId? ==> r.error.id in ids && TokenLen(v, r.error.id).None?
  {
    hide Bytes, Offset;
    var cursor := range.start;
    var boundaries := [cursor];
    OffsetEnd(v, ids);
    for i := 0 to |ids|
      invariant cursor == range.start + Offset(v, ids, i) <= range.end
      invariant forall k :: 0 <= k < i ==> TokenBytes(v, ids[k]) != []
      invariant |boundaries| == i + 1
      invariant forall k :: 0 <= k <= i ==> boundaries[k] == range.start + Offset(v, ids, k)
    {
      var length := TokenLen(v, ids[i]);
      if length.None? {
        return Err(UnknownTokenId(ids[i]));
      }
      OffsetStep(v, ids, i);
      cursor := cursor + length.value;
      if cursor > range.end {
        OffsetGrows(v, ids, i + 1);
        return Err(TokenCoverage(range.start, range.end, cursor));
      }
      boundaries := boundaries + [cursor];
    }
    if cursor != range.end {
      return Err(TokenCoverage(range.start, range.end, cursor));
    }
    r := Ok(EncodedChunk(range, ids, boundaries));
  }

  lemma OffsetGrows(v: Vocab, s: seq<Token>, k: nat)
    requires k <= |s|
    ensures Offset(v, s, k) <= |Bytes(v, s)|
  {
    hide Bytes;
    assert s == s[..k] + s[k..];
    BytesConcat(v, s[..k], s[k..]);
  }

  /** The boundaries of a chunk within `start..=end`. */
  function BoundariesIn(boundaries: seq<nat>, start: nat, end: nat): (r: seq<nat>)
    ensures forall p :: p in r <==> p in boundaries && start <= p <= end
    ensures boundaries != [] && start <= boundaries[0] <= end ==> r != [] && r[0] == boundaries[0]
  {
    if boundaries == [] then []
    else (if start <= boundaries[0] <= end then [boundaries[0]] else []) + BoundariesIn(boundaries[1..], start, end)
  }

  /** Position of `p` in a list that holds it (a binary search over increasing boundaries). */
  function IndexOf(s: seq<nat>, p: nat): (i: nat)
    requires p in s
    ensures i < |s| && s[i] == p
  {
    if s[0] == p then 0 else 1 + IndexOf(s[1..], p)
  }

  lemma BoundaryIsOffset(v: Vocab, c: EncodedChunk, p: nat)
    requires Measured(v, c) && p in c.boundaries
    ensures c.range.start <= p && HasBoundary(v, c.ids, p - c.range.start)
    ensures CountBefore(v, c.ids, p - c.range.start) == IndexOf(c.boundaries, p)
  {
    var k := IndexOf(c.boundaries, p);
    assert c.boundaries[k] == c.range.start + Offset(v, c.ids, k);
    CountBeforeAt(v, c.ids, k);
  }

  lemma EndsAreBoundaries(v: Vocab, c: EncodedChunk)
    requires Measured(v, c)
    ensures c.boundaries[0] == c.range.start && c.range.end in c.boundaries
  {
    OffsetEnd(v, c.ids);
    assert c.boundaries[|c.ids|] == c.range.start + Offset(v, c.ids, |c.ids|);
  }

  /** Chunks that carry exactly the encoder's answer for their range. */
  ghost predicate ExactChunk(job: Job, c: EncodedChunk) {
    && Encodable(job, c.range.start, c.range.end)
    && Measured(job.v, c)
    && c.ids == job.encode(job.text[c.range.start..c.range.end])
  }

  /** Two overlapping ranges, each longer than `omega`. */
  ghost predicate Overlapping(job: Job, a: Range, b: Range) {
    && a.start < b.start < a.end < b.end
    && a.start + job.omega < a.end && b.start + job.omega < b.end
  }

  /** When both edges of the overlap are boundaries of both chunks, the splice is the whole encoding. */
  lemma SpliceExact(job: Job, left: EncodedChunk, right: EncodedChunk)
    requires Sound(job) && ExactChunk(job, left) && ExactChunk(job, right)
    requires Overlapping(job, left.range, right.range)
    requires right.range.start in left.boundaries && left.range.end in right.boundaries
    ensures left.ids[..IndexOf(left.boundaries, right.range.start)] + right.ids
         == job.encode(job.text[left.range.start..right.range.end])
  {
    hide Bytes, Solid, Consistent, HasBoundary, Greedy, IndexOf, CountBefore;
    var a, b, c, d := left.range.start, right.range.start, left.range.end, right.range.end;
    var x, y, z := job.init(job.text[a..b]), job.init(job.text[b..c]), job.init(job.text[c..d]);
    assert Between(job, a, b) && Between(job, b, c) && Between(job, c, d) && Between(job, a, c)
        && Between(job, b, d) && Between(job, a, d);
    assert job.init(job.text[a..c]) == x + y && job.init(job.text[b..d]) == y + z;
    assert job.init(job.text[a..d]) == x + y + z by {
      assert job.init(job.text[a..d]) == job.init(job.text[a..c]) + z;
    }
    assert Bytes(job.v, x) == job.text[a..b] && Bytes(job.v, y) == job.text[b..c];
    BoundaryIsOffset(job.v, left, b);
    BoundaryIsOffset(job.v, right, c);
    assert y != [] by {
      SpellsNothing(job.v);
    }
    OverlapSplices(job.m, job.v, x, y, z);
  }

  lemma SpellsNothing(v: Vocab)
    ensures Bytes(v, []) == []
  {
  }

  /** Lists of boundaries that agree put both edges of the overlap in both chunks. */
  lemma AgreementMeetsEdges(job: Job, left: EncodedChunk, right: EncodedChunk)
    requires ExactChunk(job, left) && ExactChunk(job, right) && Overlapping(job, left.range, right.range)
    requires BoundariesIn(left.boundaries, right.range.start, left.range.end)
          == BoundariesIn(right.boundaries, right.range.start, left.range.end)
    ensures right.range.start in left.boundaries && left.range.end in right.boundaries
    ensures var agreed := BoundariesIn(left.boundaries, right.range.start, left.range.end);
            agreed != [] && agreed[0] == right.range.start
    ensures IndexOf(right.boundaries, right.range.start) == 0
  {
    EndsAreBoundaries(job.v, left);
    EndsAreBoundaries(job.v, right);
    assert right.range.start in BoundariesIn(right.boundaries, right.range.start, left.range.end);
    assert left.range.end in BoundariesIn(left.boundaries, right.range.start, left.range.end);
  }

  /** Join two chunks at a boundary both have. */
  method Splice(v: Vocab, left: EncodedChunk, right: EncodedChunk, boundary: nat)
    returns (r: Result<EncodedChunk, ChunkError>)
    requires boundary in left.boundaries && boundary in right.boundaries
    requires |left.boundaries| == |left.ids| + 1 && |right.boundaries| == |right.ids| + 1
    requires left.range.start <= right.range.end
    ensures var ids := left.ids[..IndexOf(left.boundaries, boundary)]
                       + right.ids[IndexOf(right.boundaries, boundary)..];
            && (r.Ok? <==> Solid(v, ids) && |Bytes(v, ids)| == right.range.end - left.range.start)
            && (r.Ok? ==> Measured(v, r.value) && r.value.ids == ids
                          && r.value.range == Range(left.range.start, right.range.end))
  {
    var leftIndex, rightIndex := IndexOf(left.boundaries, boundary), IndexOf(right.boundaries, boundary);
    r := EncodeChunk(v, Range(left.range.start, right.range.end), left.ids[..leftIndex] + right.ids[rightIndex..]);
  }

  lemma JoinedRange(job: Job, a: Range, b: Range)
    requires Between(job, a.start, a.end) && Between(job, b.start, b.end) && Overlapping(job, a, b)
    ensures Between(job, a.start, b.end) && a.start + job.omega < b.end
    ensures Range(a.start, Max(b.end, a.end)) == Range(a.start, b.end) && Min(a.end, b.end) == a.end
  {
  }

  // ------------------------------------------------------------------
  // When encodings agree, and what a run then asks for
  // ------------------------------------------------------------------

  /** The encoding of range `r` has a token boundary at position `p` of the text. */
  ghost predicate EncodedBoundary(job: Job, r: Range, p: nat) {
    && r.start <= p <= r.end <= |job.text|
    && HasBoundary(job.v, job.encode(job.text[r.start..r.end]), p - r.start)
  }

  /** The encodings of two ranges have the same token boundaries in their overlap. */
  ghost predicate Agree(job: Job, a: Range, b: Range) {
    forall p: nat :: b.start <= p <= a.end ==> (EncodedBoundary(job, a, p) <==> EncodedBoundary(job, b, p))
  }

  function Length(r: Range): nat {
    if r.start <= r.end then r.end - r.start else 0
  }

  /** Enlargements a run asks for from `end` on: one for each range whose encoding disagrees with the part before. */
  ghost function Enlargements(job: Job, end: nat, ranges: seq<Range>): nat
    decreases |ranges|
  {
    if ranges == [] then 0
    else
      (if Agree(job, Range(0, end), ranges[0]) then 0 else 1) + Enlargements(job, ranges[0].end, ranges[1..])
  }

  /** The longest range it has encoded: planned ones, and enlarged ones, which start where the text does. */
  ghost function LongestFrom(job: Job, end: nat, ranges: seq<Range>): nat
    decreases |ranges|
  {
    if ranges == [] then 0
    else
      var enlarged := if Agree(job, Range(0, end), ranges[0]) then 0 else ranges[0].end;
      Max(Max(Length(ranges[0]), enlarged), LongestFrom(job, ranges[0].end, ranges[1..]))
  }

  /** What a whole run over a plan asks for. */
  ghost function PlanEnlargements(job: Job, ranges: seq<Range>): nat
    requires ranges != []
  {
    Enlargements(job, ranges[0].end, ranges[1..])
  }

  ghost function LongestEncoded(job: Job, ranges: seq<Range>): nat
    requires ranges != []
  {
    Max(Length(ranges[0]), LongestFrom(job, ranges[0].end, ranges[1..]))
  }

  /** A chunk lists exactly the boundaries of its encoding. */
  lemma ListedBoundaries(job: Job, c: EncodedChunk, p: nat)
    requires ExactChunk(job, c)
    ensures p in c.boundaries <==> EncodedBoundary(job, c.range, p)
  {
    hide Bytes, Solid;
    if p in c.boundaries {
      var k :| 0 <= k < |c.boundaries| && c.boundaries[k] == p;
      OffsetGrows(job.v, c.ids, k);
      assert Offset(job.v, c.ids, k) == p - c.range.start;
    }
    if EncodedBoundary(job, c.range, p) {
      var k: nat :| k <= |c.ids| && Offset(job.v, c.ids, k) == p - c.range.start;
      assert c.boundaries[k] == p;
    }
  }

  ghost predicate Ascending(s: seq<nat>) {
    forall i, j :: 0 <= i < j < |s| ==> s[i] < s[j]
  }

  lemma BoundariesAscend(v: Vocab, c: EncodedChunk)
    requires Measured(v, c)
    ensures Ascending(c.boundaries)
  {
    hide Bytes, Solid, Offset;
    forall i, j | 0 <= i < j < |c.boundaries|
      ensures c.boundaries[i] < c.boundaries[j]
    {
      OffsetMonotone(v, c.ids, i, j);
    }
  }

  lemma {:induction false} FilterAscends(s: seq<nat>, start: nat, end: nat)
    requires Ascending(s)
    ensures Ascending(BoundariesIn(s, start, end))
  {
    if s != [] {
      FilterAscends(s[1..], start, end);
      var rest := BoundariesIn(s[1..], start, end);
      forall j | 0 <= j < |rest|
        ensures s[0] < rest[j]
      {
        assert rest[j] in rest;
        var i :| 0 <= i < |s[1..]| && s[1..][i] == rest[j];
        assert s[0] < s[1 + i];
      }
    }
  }

  lemma SomeElement(s: seq<nat>)
    ensures s != [] ==> exists p :: p in s
  {
    if s != [] {
      assert s[0] in s;
    }
  }

  /** The head of an ascending list is its least element. */
  lemma HeadIsLeast(s: seq<nat>)
    requires Ascending(s) && s != []
    ensures s[0] in s && (forall p :: p in s ==> s[0] <= p) && Ascending(s[1..])
    ensures forall p :: p in s[1..] <==> p in s && p != s[0]
  {
    assert s == [s[0]] + s[1..];
  }

  /** Ascending lists with the same elements are equal. */
  lemma {:induction false} AscendingUnique(a: seq<nat>, b: seq<nat>)
    requires Ascending(a) && Ascending(b) && forall p :: p in a <==> p in b
    ensures a == b
  {
    hide Ascending;
    SomeElement(b);
    if a != [] {
      HeadIsLeast(a);
      HeadIsLeast(b);
      AscendingUnique(a[1..], b[1..]);
      assert a == [a[0]] + a[1..] && b == [b[0]] + b[1..];
    }
  }

  /** The lists of two chunks agree in the overlap exactly when their encodings do. */
  lemma ListsAgree(job: Job, left: EncodedChunk, right: EncodedChunk)
    requires ExactChunk(job, left) && ExactChunk(job, right)
    ensures BoundariesIn(left.boundaries, right.range.start, left.range.end)
            == BoundariesIn(right.boundaries, right.range.start, left.range.end)
            <==> Agree(job, left.range, right.range)
  {
    BoundariesAscend(job.v, left);
    BoundariesAscend(job.v, right);
    hide ExactChunk, EncodedBoundary, BoundariesIn, Ascending;
    var a := BoundariesIn(left.boundaries, right.range.start, left.range.end);
    var b := BoundariesIn(right.boundaries, right.range.start, left.range.end);
    forall p: nat
      ensures p in left.boundaries <==> EncodedBoundary(job, left.range, p)
      ensures p in right.boundaries <==> EncodedBoundary(job, right.range, p)
    {
      ListedBoundaries(job, left, p);
      ListedBoundaries(job, right, p);
    }
    if Agree(job, left.range, right.range) {
      FilterAscends(left.boundaries, right.range.start, left.range.end);
      FilterAscends(right.boundaries, right.range.start, left.range.end);
      AscendingUnique(a, b);
    } else if a == b {
      forall p: nat | right.range.start <= p <= left.range.end
        ensures EncodedBoundary(job, left.range, p) <==> EncodedBoundary(job, right.range, p)
      {
        assert p in a <==> p in left.boundaries;
        assert p in b <==> p in right.boundaries;
      }
      assert false;
    }
  }

  /** Splice two exact chunks if their encodings agree in the overlap. */
  method TrySplice(ghost job: Job, v: Vocab, left: EncodedChunk, right: EncodedChunk)
    returns (joined: Option<EncodedChunk>)
    requires v == job.v && Sound(job) && ExactChunk(job, left) && ExactChunk(job, right)
    requires Overlapping(job, left.range, right.range)
    ensures joined.Some? ==>
              ExactChunk(job, joined.value) && joined.value.range == Range(left.range.start, right.range.end)
    ensures joined.Some? <==> Agree(job, left.range, right.range)
  {
    ListsAgree(job, left, right);
    hide Agree;
    JoinedRange(job, left.range, right.range);
    var overlapStart, overlapEnd := right.range.start, Min(left.range.end, right.range.end);
    var leftOverlap := BoundariesIn(left.boundaries, overlapStart, overlapEnd);
    var rightOverlap := BoundariesIn(right.boundaries, overlapStart, overlapEnd);
    EndsAreBoundaries(v, right);
    if leftOverlap == [] || leftOverlap != rightOverlap {
      return None;
    }
    AgreementMeetsEdges(job, left, right);
    SpliceExact(job, left, right);
    EncodedSpells(job, left.range.start, right.range.end);
    hide Measured, Sound, Solid, Bytes, BoundariesIn, IndexOf;
    var spliced := Splice(v, left, right, leftOverlap[0]);
    joined := Some(spliced.value);
  }

  lemma EncodedSpells(job: Job, p: nat, q: nat)
    requires Sound(job) && Encodable(job, p, q)
    ensures Solid(job.v, job.encode(job.text[p..q])) && |Bytes(job.v, job.encode(job.text[p..q]))| == q - p
  {
  }

  /** The queue of chunks still to join: each overlaps the one before it. */
  ghost predicate Queued(job: Job, last: Range, right: seq<EncodedChunk>)
    decreases |right|
  {
    right != [] ==>
      && ExactChunk(job, right[0]) && Overlapping(job, last, right[0].range)
      && Queued(job, right[0].range, right[1..])
  }

  /** The queue's links only depend on where the joined part ends. */
  lemma QueueAfterJoin(job: Job, left: Range, right: seq<EncodedChunk>)
    requires right != [] && Queued(job, left, right)
    ensures Queued(job, Range(left.start, right[0].range.end), right[1..])
  {
    var rest := right[1..];
    if rest != [] {
      assert Queued(job, right[0].range, rest);
    }
  }

  lemma QueueRanges(job: Job, last: Range, right: seq<EncodedChunk>)
    requires right != [] && Queued(job, last, right)
    ensures ExactChunk(job, right[0]) && Overlapping(job, last, right[0].range)
    ensures Between(job, right[0].range.start, right[0].range.end) && right[0].range.start <= right[0].range.end
  {
  }

  function QueueEnd(last: Range, right: seq<EncodedChunk>): nat {
    if right == [] then last.end else right[|right| - 1].range.end
  }

  /** Room the enlargements up to the queued chunks can take, one request each. */
  function QueueRoom(right: seq<EncodedChunk>): nat {
    if right == [] then 0 else right[0].range.end + 1 + QueueRoom(right[1..])
  }

  /** The ranges of the queued chunks. */
  ghost function RangesOf(right: seq<EncodedChunk>): (ranges: seq<Range>)
    ensures |ranges| == |right| && forall k :: 0 <= k < |right| ==> ranges[k] == right[k].range
  {
    seq(|right|, k requires 0 <= k < |right| => right[k].range)
  }

  /** The same for planned ranges. */
  function AgainRoom(ranges: seq<Range>): nat {
    if ranges == [] then 0 else ranges[0].end + 1 + AgainRoom(ranges[1..])
  }

  lemma {:induction false} QueueIsAgain(right: seq<EncodedChunk>, ranges: seq<Range>)
    requires |right| == |ranges| && forall k :: 0 <= k < |right| ==> right[k].range == ranges[k]
    ensures QueueRoom(right) == AgainRoom(ranges)
  {
    if right != [] {
      QueueIsAgain(right[1..], ranges[1..]);
    }
  }

  datatype ChunkedEncoding = ChunkedEncoding(
    ids: seq<Token>, initialChunks: nat, enlargements: nat, largestEncodedSpan: nat)

  /** One encoding per range, each the encoder's answer for it. */
  ghost predicate ExactResults(job: Job, ranges: seq<Range>, encoded: seq<seq<Token>>)
    requires |ranges| == |encoded|
  {
    forall k :: 0 <= k < |ranges| && ranges[k].start <= ranges[k].end <= |job.text| ==>
      encoded[k] == job.encode(job.text[ranges[k].start..ranges[k].end])
  }

  method EncodeChunks(ghost job: Job, v: Vocab, ranges: seq<Range>, encoded: seq<seq<Token>>)
    returns (chunks: seq<EncodedChunk>)
    requires v == job.v && Sound(job) && |ranges| == |encoded| && ExactResults(job, ranges, encoded)
    requires forall k :: 0 <= k < |ranges| ==> Encodable(job, ranges[k].start, ranges[k].end)
    ensures |chunks| == |ranges|
    ensures forall k :: 0 <= k < |chunks| ==> ExactChunk(job, chunks[k]) && chunks[k].range == ranges[k]
  {
    hide Sound, ExactChunk;
    chunks := [];
    for k := 0 to |ranges|
      invariant |chunks| == k
      invariant forall j :: 0 <= j < k ==> ExactChunk(job, chunks[j]) && chunks[j].range == ranges[j]
    {
      var chunk := EncodeExact(job, v, ranges[k], encoded[k]);
      chunks := chunks + [chunk];
    }
  }

  /** An exact encoding of one range is accepted. */
  method EncodeExact(ghost job: Job, v: Vocab, range: Range, ids: seq<Token>) returns (chunk: EncodedChunk)
    requires v == job.v && Sound(job) && Encodable(job, range.start, range.end)
    requires ids == job.encode(job.text[range.start..range.end])
    ensures ExactChunk(job, chunk) && chunk.range == range
  {
    EncodedSpells(job, range.start, range.end);
    var measured := EncodeChunk(v, range, ids);
    chunk := measured.value;
  }

  lemma PlanEncodable(job: Job, ranges: seq<Range>)
    requires Plan(job.text, job.omega, job.codepointEdges, ranges)
    ensures forall k :: 0 <= k < |ranges| ==> Encodable(job, ranges[k].start, ranges[k].end)
  {
    forall k | 0 <= k < |ranges|
      ensures Encodable(job, ranges[k].start, ranges[k].end)
    {
      assert PlanRange(job.text, job.codepointEdges, ranges[k]);
    }
  }

  lemma PlanTotals(job: Job, ranges: seq<Range>, rest: seq<EncodedChunk>)
    requires ranges != [] && |rest| == |ranges| - 1 && forall k :: 0 <= k < |rest| ==> rest[k].range == ranges[k + 1]
    ensures Enlargements(job, ranges[0].end, RangesOf(rest)) == PlanEnlargements(job, ranges)
    ensures Max(Length(ranges[0]), LongestFrom(job, ranges[0].end, RangesOf(rest))) == LongestEncoded(job, ranges)
  {
    assert RangesOf(rest) == ranges[1..];
  }

  lemma PlanEnds(job: Job, ranges: seq<Range>)
    requires Plan(job.text, job.omega, job.codepointEdges, ranges)
    ensures ranges != [] && 0 == ranges[0].start <= ranges[0].end && ranges[|ranges| - 1].end == |job.text|
    ensures Between(job, ranges[0].start, ranges[0].end)
  {
    assert PlanRange(job.text, job.codepointEdges, ranges[0]);
  }

  /** A plan's chunks from index `k` on are queued behind chunk `k`. */
  lemma {:induction false} PlanQueues(job: Job, ranges: seq<Range>, chunks: seq<EncodedChunk>, k: nat)
    requires job.omega > 0 && Plan(job.text, job.omega, job.codepointEdges, ranges) && k < |ranges| == |chunks|
    requires forall j :: 0 <= j < |chunks| ==> ExactChunk(job, chunks[j]) && chunks[j].range == ranges[j]
    ensures Queued(job, ranges[k], chunks[k + 1..])
    decreases |ranges| - k
  {
    hide ExactChunk;
    if k + 1 < |ranges| {
      PlanQueues(job, ranges, chunks, k + 1);
      assert chunks[k + 1..][1..] == chunks[k + 2..];
      assert Neighbours(job.omega, job.codepointEdges, ranges[k + 1 - 1], ranges[k + 1]);
      assert Overlapping(job, ranges[k], chunks[k + 1].range);
    }
  }

  /**
   The reconciliation state machine. While it runs, either `left` holds the exact
   encoding of the part joined so far, or `pending` names the enlarged range whose
   encoding is being waited for.
   */
  class OverlapReconciliation {
    var left: Option<EncodedChunk>
    var right: seq<EncodedChunk>
    var pending: Option<Range>
    var initialChunks: nat
    var enlargements: nat
    var largestEncodedSpan: nat

    /** The range joined so far, or about to be. */
    ghost function Joined(): Range
      reads this
    {
      if pending.Some? then pending.value else if left.Some? then left.value.range else Range(0, 0)
    }

    /** Enlargements asked for so far and from here on. */
    ghost function AllEnlargements(job: Job): nat
      reads this
    {
      enlargements + Enlargements(job, Joined().end, RangesOf(right))
    }

    /** The longest range encoded so far and from here on. */
    ghost function LongestOfAll(job: Job): nat
      reads this
    {
      Max(Max(largestEncodedSpan, if pending.Some? then Length(pending.value) else 0),
          LongestFrom(job, Joined().end, RangesOf(right)))
    }

    /** What every step keeps. */
    ghost predicate Inv(job: Job)
      reads this
    {
      && (left.Some? <==> pending.None?)
      && (left.Some? ==> ExactChunk(job, left.value) && Between(job, left.value.range.start, left.value.range.end))
      && (pending.Some? ==> Between(job, pending.value.start, pending.value.end)
                            && pending.value.start + job.omega < pending.value.end)
      && Joined().start == 0
      && Queued(job, Joined(), right)
      && QueueEnd(Joined(), right) == |job.text|
      && enlargements + |right| + 1 <= initialChunks
    }

    /** `Inv` at rest: nothing is left to join unless an enlargement is awaited. */
    ghost predicate AtRest(job: Job)
      reads this
    {
      Inv(job) && (pending.None? ==> right == [])
    }

    constructor (left: EncodedChunk, right: seq<EncodedChunk>, initialChunks: nat)
      requires left.range.start <= left.range.end
      ensures this.left == Some(left) && this.right == right && this.initialChunks == initialChunks
      ensures pending == None && enlargements == 0 && largestEncodedSpan == left.range.end - left.range.start
    {
      this.left, this.right, this.initialChunks := Some(left), right, initialChunks;
      pending, enlargements := None, 0;
      largestEncodedSpan := left.range.end - left.range.start;
    }

    /**
     Start from one encoding per planned range. Exact encodings of a plan never fail
     and leave the machine at rest.
     */
    static method Start(ghost job: Job, v: Vocab, ranges: seq<Range>, encoded: seq<seq<Token>>)
      returns (r: Result<OverlapReconciliation, ChunkError>)
      requires v == job.v && Sound(job) && job.omega > 0
      requires Plan(job.text, job.omega, job.codepointEdges, ranges)
      requires |encoded| == |ranges| ==> ExactResults(job, ranges, encoded)
      ensures |encoded| != |ranges| ==> r == Err(EncodeResultCount(|ranges|, |encoded|))
      ensures |encoded| == |ranges| ==>
                r.Ok? && fresh(r.value) && r.value.AtRest(job) && r.value.initialChunks == |ranges|
                && (r.value.pending.None? || |r.value.right| + 1 < |ranges|)
                && (r.value.pending.Some? ==>
                      r.value.pending.value.end + 1 + QueueRoom(r.value.right) <= AgainRoom(ranges[1..]))
      ensures r.Ok? ==> r.value.enlargements == if r.value.pending.Some? then 1 else 0
      ensures r.Ok? ==> ranges != [] && r.value.AllEnlargements(job) == PlanEnlargements(job, ranges)
      ensures r.Ok? ==> ranges != [] && r.value.LongestOfAll(job) == LongestEncoded(job, ranges)
    {
      if |encoded| != |ranges| {
        return Err(EncodeResultCount(|ranges|, |encoded|));
      }
      hide Enlargements, LongestFrom, Plan, Sound, ExactChunk, Queued, Between, Encodable, ExactResults, QueueRoom,
           PlanEnlargements, LongestEncoded, AgainRoom;
      PlanEncodable(job, ranges);
      PlanEnds(job, ranges);
      var chunks := EncodeChunks(job, v, ranges, encoded);
      PlanQueues(job, ranges, chunks, 0);
      var first, rest := chunks[0], chunks[1..];
      QueueIsAgain(rest, ranges[1..]);
      PlanTotals(job, ranges, rest);
      var state := new OverlapReconciliation(first, rest, |ranges|);
      assert QueueEnd(first.range, rest) == |job.text|;
      assert state.Inv(job) && state.AllEnlargements(job) == PlanEnlargements(job, ranges);
      assert state.LongestOfAll(job) == LongestEncoded(job, ranges);
      hide OverlapReconciliation.Inv, OverlapReconciliation.AtRest, OverlapReconciliation.AllEnlargements,
           OverlapReconciliation.LongestOfAll;
      var advanced := state.Advance(job, v);
      r := Ok(state);
    }

    /** The range the caller must encode next, if any. */
    function RequestedRange(): Option<Range>
      reads this
    {
      pending
    }

    /** Take the encoding of the requested range; out of turn the call is refused. */
    method AcceptEnlargement(ghost job: Job, v: Vocab, ids: seq<Token>) returns (r: Result<(), ChunkError>)
      requires v == job.v && Sound(job) && AtRest(job)
      requires pending.Some? ==> ids == job.encode(job.text[pending.value.start..pending.value.end])
      modifies this
      ensures old(pending).None? ==> r == Err(InvalidGeometry) && unchanged(this)
      ensures old(pending).Some? ==> r.Ok? && AtRest(job) && initialChunks == old(initialChunks)
      ensures old(pending).Some? ==> pending.None? || |right| < |old(right)|
      ensures old(pending).Some? && pending.Some? ==>
                pending.value.end + 1 + QueueRoom(right) <= QueueRoom(old(right))
      ensures old(pending).Some? ==> enlargements == old(enlargements) + if pending.Some? then 1 else 0
      ensures AllEnlargements(job) == old(AllEnlargements(job)) && LongestOfAll(job) == old(LongestOfAll(job))
    {
      if pending.None? {
        return Err(InvalidGeometry);
      }
      var range := pending.value;
      EncodedSpells(job, range.start, range.end);
      var chunk := EncodeChunk(v, range, ids);
      assert ExactChunk(job, chunk.value);
      hide Sound, ExactChunk, Overlapping, Queued, Enlargements, LongestFrom;
      pending := None;
      largestEncodedSpan := Max(largestEncodedSpan, range.end - range.start);
      left := Some(chunk.value);
      r := Advance(job, v);
    }

    /** Hand out the result once nothing is awaited. */
    method Finish(ghost job: Job) returns (r: Result<ChunkedEncoding, ChunkError>)
      requires AtRest(job)
      ensures r.Ok? <==> pending.None?
      ensures r.Err? ==> r.error == InvalidGeometry
      ensures r.Ok? ==> r.value.ids == job.encode(job.text)
      ensures r.Ok? ==> r.value.initialChunks == initialChunks && r.value.enlargements < initialChunks
      ensures r.Ok? ==> r.value.enlargements == AllEnlargements(job) == enlargements
      ensures r.Ok? ==> r.value.largestEncodedSpan == LongestOfAll(job)
    {
      if pending.Some? || right != [] {
        return Err(InvalidGeometry);
      }
      assert job.text[0..|job.text|] == job.text;
      r := Ok(ChunkedEncoding(left.value.ids, initialChunks, enlargements, largestEncodedSpan));
    }

    /** Join chunks while boundaries agree; stop at the first disagreement and ask for more. */
    method Advance(ghost job: Job, v: Vocab) returns (r: Result<(), ChunkError>)
      requires v == job.v && Sound(job) && Inv(job) && pending.None?
      modifies this
      ensures r.Ok? && AtRest(job)
      ensures initialChunks == old(initialChunks)
      ensures pending.None? || |right| < |old(right)|
      ensures pending.Some? ==> pending.value.end + 1 + QueueRoom(right) <= QueueRoom(old(right))
      ensures enlargements == old(enlargements) + if pending.Some? then 1 else 0
      ensures AllEnlargements(job) == old(AllEnlargements(job)) && LongestOfAll(job) == old(LongestOfAll(job))
    {
      hide Sound, ExactChunk, Overlapping, Queued, Between, Enlargements, LongestFrom;
      while right != []
        invariant Inv(job) && pending.None? && initialChunks == old(initialChunks) && |right| <= |old(right)|
        invariant QueueRoom(right) <= QueueRoom(old(right)) && enlargements == old(enlargements)
        invariant AllEnlargements(job) == old(AllEnlargements(job)) && LongestOfAll(job) == old(LongestOfAll(job))
        decreases |right|
      {
        var done := Join(job, v);
        if !done {
          return Ok(());
        }
      }
      r := Ok(());
    }

    /**
     One turn: pop the next chunk, then splice it if its encoding agrees with the part joined
     so far, and request the enlarged range if not.
     */
    method Join(ghost job: Job, v: Vocab) returns (spliced: bool)
      requires v == job.v && Sound(job) && Inv(job) && pending.None? && right != []
      modifies this
      ensures Inv(job) && right == old(right)[1..] && initialChunks == old(initialChunks)
      ensures spliced <==> Agree(job, old(Joined()), old(right)[0].range)
      ensures spliced <==> pending.None?
      ensures enlargements == old(enlargements) + if spliced then 0 else 1
      ensures largestEncodedSpan == Max(old(largestEncodedSpan), Length(old(right)[0].range))
      ensures AllEnlargements(job) == old(AllEnlargements(job)) && LongestOfAll(job) == old(LongestOfAll(job))
      ensures Joined() == Range(old(Joined()).start, old(right)[0].range.end)
    {
      hide Sound, ExactChunk, Overlapping, Between, Agree;
      assert RangesOf(right)[1..] == RangesOf(right[1..]);
      var l, chunk := left.value, right[0];
      QueueAfterJoin(job, l.range, right);
      QueueRanges(job, l.range, right);
      JoinedRange(job, l.range, chunk.range);
      right := right[1..];
      largestEncodedSpan := Max(largestEncodedSpan, chunk.range.end - chunk.range.start);
      var joined := TrySplice(job, v, l, chunk);
      left := joined;
      spliced := joined.Some?;
      if !spliced {
        pending := Some(Range(l.range.start, Max(chunk.range.end, l.range.end)));
        enlargements := enlargements + 1;
      }
    }
  }

  function Max(a: nat, b: nat): nat {
    if a < b then b else a
  }

  /** Encode each range with the given encoder. */
  function EncodeMany(job: Job, ranges: seq<Range>): (r: seq<seq<Token>>)
    requires forall k :: 0 <= k < |ranges| ==> ranges[k].start <= ranges[k].end <= |job.text|
    ensures |r| == |ranges| && ExactResults(job, ranges, r)
  {
    seq(|ranges|, k requires 0 <= k < |ranges| => job.encode(job.text[ranges[k].start..ranges[k].end]))
  }

  /** Configurations the protocol accepts. */
  ghost predicate Configured(job: Job, configured: Option<nat>, usizeMax: nat) {
    && 0 < 2 * job.omega <= usizeMax
    && (job.codepointEdges ==> Utf8.Valid(job.text))
    && ChunkSize(job.omega, configured, usizeMax).Some?
    && var size := ChunkSize(job.omega, configured, usizeMax).value;
       2 * job.omega <= size
       && (size < |job.text| ==> !Stalls(job.text, size, job.omega, job.codepointEdges, 0))
  }

  /** What a caller can check: with four bytes of room before the overlap no text is refused. */
  lemma RoomyIsConfigured(job: Job, configured: Option<nat>, usizeMax: nat)
    requires 0 < 2 * job.omega <= usizeMax && ChunkSize(job.omega, configured, usizeMax).Some?
    requires var size := ChunkSize(job.omega, configured, usizeMax).value;
             2 * job.omega <= size
             && (job.codepointEdges ==> Utf8.Valid(job.text) && job.omega + 4 <= size)
    ensures Configured(job, configured, usizeMax)
  {
    hide Stalls;
    RoomyAdvances(job.text, ChunkSize(job.omega, configured, usizeMax).value, job.omega, job.codepointEdges, 0);
  }

  /** Encode the requested range and hand it over. */
  method Serve(job: Job, state: OverlapReconciliation)
    requires Sound(job) && state.AtRest(job) && state.pending.Some?
    modifies state
    ensures state.AtRest(job) && state.initialChunks == old(state.initialChunks)
    ensures state.pending.None? || |state.right| < |old(state.right)|
    ensures state.enlargements == old(state.enlargements) + if state.pending.Some? then 1 else 0
    ensures state.AllEnlargements(job) == old(state.AllEnlargements(job))
    ensures state.LongestOfAll(job) == old(state.LongestOfAll(job))
  {
    hide Sound, ExactChunk, Queued, OverlapReconciliation.AllEnlargements, OverlapReconciliation.LongestOfAll;
    var range := state.RequestedRange().value;
    var encoded := EncodeMany(job, [range]);
    assert [range][0] == range;
    var accepted := state.AcceptEnlargement(job, job.v, encoded[0]);
  }

  /**
   The whole protocol: plan, encode the chunks, then reconcile with as many enlarged
   requests as needed. The ids are those of encoding the pretoken in one piece; the
   only failures are refusals of the configuration.
   */
  method EncodeOverlap(job: Job, configured: Option<nat>, usizeMax: nat)
    returns (r: Result<ChunkedEncoding, ChunkError>, ghost plan: seq<Range>, ghost requests: nat)
    requires Sound(job)
    ensures r.Ok? ==> r.value.ids == job.encode(job.text)
    ensures r.Ok? ==> r.value.enlargements < r.value.initialChunks == |plan|
    ensures r.Ok? ==>
              && Plan(job.text, job.omega, job.codepointEdges, plan)
              && ChunkSize(job.omega, configured, usizeMax).Some?
              && var size := ChunkSize(job.omega, configured, usizeMax).value;
                 Stepped(job.text, size, job.omega, job.codepointEdges, plan)
    ensures r.Ok? ==>
              && plan != []
              && r.value.enlargements == requests == PlanEnlargements(job, plan)
              && r.value.largestEncodedSpan == LongestEncoded(job, plan)
    ensures r.Ok? <==> Configured(job, configured, usizeMax)
    ensures r.Err? ==>
              || r.error.InvalidOmega? || r.error.InvalidUtf8Pretoken? || r.error.ChunkSizeOverflow?
              || r.error.ChunkTooSmall? || r.error.InvalidGeometry?
    ensures r == Err(InvalidGeometry) <==>
              && job.omega > 0 && (job.codepointEdges ==> Utf8.Valid(job.text)) && 2 * job.omega <= usizeMax
              && ChunkSize(job.omega, configured, usizeMax).Some?
              && var size := ChunkSize(job.omega, configured, usizeMax).value;
                 2 * job.omega <= size < |job.text| && Stalls(job.text, size, job.omega, job.codepointEdges, 0)
  {
    hide Sound, Plan, Edge, Utf8.Valid, ExactResults, Stalls, Stepped, OverlapReconciliation.Inv,
         OverlapReconciliation.AllEnlargements, OverlapReconciliation.LongestOfAll;
    plan, requests := [], 0;
    var planned := OverlapRanges(job.text, job.omega, configured, job.codepointEdges, usizeMax);
    if planned.Err? {
      return Err(planned.error), plan, requests;
    }
    var ranges := planned.value;
    plan := ranges;
    PlanInText(job.text, job.omega, job.codepointEdges, ranges);
    var started := OverlapReconciliation.Start(job, job.v, ranges, EncodeMany(job, ranges));
    var state := started.value;
    while state.RequestedRange().Some?
      invariant fresh(state) && state.AtRest(job) && state.initialChunks == |plan|
      invariant state.enlargements == requests + if state.pending.Some? then 1 else 0
      invariant state.AllEnlargements(job) == PlanEnlargements(job, plan)
      invariant state.LongestOfAll(job) == LongestEncoded(job, plan)
      decreases |state.right| + (if state.pending.Some? then 1 else 0)
    {
      Serve(job, state);
      requests := requests + 1;
    }
    r := state.Finish(job);
  }

  lemma PlanInText(t: seq<Byte>, omega: nat, codepointEdges: bool, ranges: seq<Range>)
    requires Plan(t, omega, codepointEdges, ranges)
    ensures forall k :: 0 <= k < |ranges| ==> ranges[k].start <= ranges[k].end <= |t|
  {
  }
}

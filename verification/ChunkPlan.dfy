/** Planning the overlapping chunks of one long pretoken. */
module ChunkPlan {
  import opened Prelude
  import Utf8

  datatype Range = Range(start: nat, end: nat)

  datatype ChunkError =
    | InvalidOmega
    | ChunkSizeOverflow
    | ChunkTooSmall(chunkSize: nat, minimum: nat)
    | InvalidUtf8Pretoken
    | InvalidGeometry
    | EncodeResultCount(expected: nat, actual: nat)
    | UnknownTokenId(id: nat)
    | TokenCoverage(rangeStart: nat, rangeEnd: nat, coveredEnd: nat)

  const DEFAULT_CHUNK_MULTIPLIER: nat := 32

  /** Where a chunk may begin or end. */
  predicate Edge(t: seq<Byte>, codepointEdges: bool, p: nat) {
    p <= |t| && (codepointEdges ==> Utf8.IsBoundary(t, p))
  }

  /** The first edge at or after `p`. */
  function EdgeAtOrAfter(t: seq<Byte>, codepointEdges: bool, p: nat): (q: nat)
    requires p <= |t|
    ensures p <= q && Edge(t, codepointEdges, q)
    ensures forall r: nat :: p <= r < q ==> !Edge(t, codepointEdges, r)
    decreases |t| - p
  {
    if Edge(t, codepointEdges, p) then p else EdgeAtOrAfter(t, codepointEdges, p + 1)
  }

  /** The last edge at or before `p`. */
  function EdgeAtOrBefore(t: seq<Byte>, codepointEdges: bool, p: nat): (q: nat)
    requires p <= |t|
    ensures q <= p && Edge(t, codepointEdges, q)
    ensures forall r: nat :: q < r <= p ==> !Edge(t, codepointEdges, r)
  {
    if Edge(t, codepointEdges, p) then p else EdgeAtOrBefore(t, codepointEdges, p - 1)
  }

  /**
   A usable plan: it covers the text, starts and ends advance strictly, neighbours
   overlap in at least `omega` bytes, and every chunk of a plan of several is
   longer than `omega`, so no single token spells a whole chunk.
   */
  ghost predicate Plan(t: seq<Byte>, omega: nat, codepointEdges: bool, ranges: seq<Range>) {
    && ranges != [] && ranges[0].start == 0 && ranges[|ranges| - 1].end == |t|
    && (forall k :: 0 <= k < |ranges| ==> PlanRange(t, codepointEdges, ranges[k]))
    && (|ranges| > 1 ==> forall k :: 0 <= k < |ranges| ==> ranges[k].start + omega < ranges[k].end)
    && forall k :: 0 < k < |ranges| ==> Neighbours(omega, codepointEdges, ranges[k - 1], ranges[k])
  }

  ghost predicate PlanRange(t: seq<Byte>, codepointEdges: bool, r: Range) {
    r.start <= r.end && Edge(t, codepointEdges, r.start) && Edge(t, codepointEdges, r.end)
  }

  ghost predicate Neighbours(omega: nat, codepointEdges: bool, a: Range, b: Range) {
    && a.start < b.start && a.end < b.end
    && b.start + omega <= a.end
    && (!codepointEdges ==> b.start + omega == a.end)
  }

  /** What the loop has planned so far: all but the last chunk, which starts at `start`. */
  ghost predicate Planned(t: seq<Byte>, chunkSize: nat, omega: nat, codepointEdges: bool, ranges: seq<Range>,
                          start: nat) {
    && (ranges == [] ==> start == 0)
    && (ranges != [] ==> ranges[0].start == 0)
    && start < |t| && Edge(t, codepointEdges, start)
    && (forall k :: 0 <= k < |ranges| ==>
          PlanRange(t, codepointEdges, ranges[k]) && ranges[k].start + omega < ranges[k].end < |t|)
    && (forall k :: 0 < k < |ranges| ==> Neighbours(omega, codepointEdges, ranges[k - 1], ranges[k]))
    && (ranges != [] ==> Follows(t, chunkSize, omega, codepointEdges, ranges[|ranges| - 1], start))
  }

  /** `start` is where the loop continues after `last`. */
  ghost predicate Follows(t: seq<Byte>, chunkSize: nat, omega: nat, codepointEdges: bool, last: Range, start: nat) {
    && last.start < start && last.start + chunkSize <= |t|
    && last.end == EdgeAtOrAfter(t, codepointEdges, last.start + chunkSize)
    && omega <= last.end && start == EdgeAtOrBefore(t, codepointEdges, last.end - omega)
  }

  function Min(a: nat, b: nat): nat {
    if a < b then a else b
  }

  /** The next chunk ends after the last one, or exactly where it did. */
  lemma EndsAdvance(t: seq<Byte>, chunkSize: nat, omega: nat, codepointEdges: bool, last: Range, start: nat)
    requires Follows(t, chunkSize, omega, codepointEdges, last, start) && last.end < |t| && start < |t|
    ensures last.end <= EdgeAtOrAfter(t, codepointEdges, Min(start + chunkSize, |t|))
  {
    var p, q := last.start + chunkSize, Min(start + chunkSize, |t|);
    var end := EdgeAtOrAfter(t, codepointEdges, q);
    assert p <= q;
    assert Edge(t, codepointEdges, end);
  }

  /** Every range advances on bytes, and on characters once four bytes are left before the overlap. */
  lemma StepAdvances(t: seq<Byte>, chunkSize: nat, omega: nat, codepointEdges: bool, start: nat, end: nat)
    requires start + chunkSize <= end <= |t| && 0 < omega && 2 * omega <= chunkSize
    requires codepointEdges ==> Utf8.Valid(t) && omega + 4 <= chunkSize
    ensures start < EdgeAtOrBefore(t, codepointEdges, end - omega)
  {
    var p := end - omega;
    if codepointEdges {
      Utf8.BoundaryNear(t, p);
      var q: nat :| q <= p <= q + 3 && Utf8.IsBoundary(t, q);
      assert Edge(t, codepointEdges, q);
    } else {
      assert Edge(t, codepointEdges, p);
    }
  }

  lemma ExtendPlan(t: seq<Byte>, chunkSize: nat, omega: nat, codepointEdges: bool, ranges: seq<Range>, start: nat,
                   r: Range)
    requires Planned(t, chunkSize, omega, codepointEdges, ranges, start)
    requires 0 < omega && 2 * omega <= chunkSize < |t|
    requires r.start == start && r.end == EdgeAtOrAfter(t, codepointEdges, Min(start + chunkSize, |t|))
    requires ranges != [] ==> ranges[|ranges| - 1].end != r.end
    ensures r.start + omega < r.end && PlanRange(t, codepointEdges, r)
    ensures ranges != [] ==> Neighbours(omega, codepointEdges, ranges[|ranges| - 1], r)
  {
    if ranges != [] {
      var last := ranges[|ranges| - 1];
      EndsAdvance(t, chunkSize, omega, codepointEdges, last, start);
      assert !codepointEdges ==> Edge(t, codepointEdges, last.end - omega);
    }
  }

  lemma PlanContinues(t: seq<Byte>, chunkSize: nat, omega: nat, codepointEdges: bool, ranges: seq<Range>, start: nat,
                      r: Range, next: nat)
    requires Planned(t, chunkSize, omega, codepointEdges, ranges, start)
    requires 0 < omega && 2 * omega <= chunkSize < |t|
    requires r.start == start && start + chunkSize <= |t|
    requires r.end == EdgeAtOrAfter(t, codepointEdges, start + chunkSize)
    requires r.end < |t| && next == EdgeAtOrBefore(t, codepointEdges, r.end - omega) && start < next
    ensures Planned(t, chunkSize, omega, codepointEdges, ranges + [r], next)
  {
    hide EdgeAtOrAfter, EdgeAtOrBefore, Edge, Neighbours, PlanRange;
    ExtendPlan(t, chunkSize, omega, codepointEdges, ranges, start, r);
    var more := ranges + [r];
    forall k | 0 <= k < |more|
      ensures PlanRange(t, codepointEdges, more[k]) && more[k].start + omega < more[k].end < |t|
    {
      assert more[k] == if k < |ranges| then ranges[k] else r;
    }
    forall k | 0 < k < |more|
      ensures Neighbours(omega, codepointEdges, more[k - 1], more[k])
    {
      assert more[k - 1] == ranges[k - 1];
      assert more[k] == if k < |ranges| then ranges[k] else r;
    }
  }

  lemma PlanFinishes(t: seq<Byte>, chunkSize: nat, omega: nat, codepointEdges: bool, ranges: seq<Range>, start: nat,
                     r: Range)
    requires Planned(t, chunkSize, omega, codepointEdges, ranges, start)
    requires 0 < omega && 2 * omega <= chunkSize < |t|
    requires r == Range(start, |t|) && r.end == EdgeAtOrAfter(t, codepointEdges, Min(start + chunkSize, |t|))
    ensures Plan(t, omega, codepointEdges, ranges + [r])
  {
    hide EdgeAtOrAfter, EdgeAtOrBefore, Edge, Neighbours, PlanRange;
    ExtendPlan(t, chunkSize, omega, codepointEdges, ranges, start, r);
  }

  lemma NothingPlanned(t: seq<Byte>, chunkSize: nat, omega: nat, codepointEdges: bool)
    requires t != []
    ensures Planned(t, chunkSize, omega, codepointEdges, [], 0) && Edge(t, codepointEdges, 0)
  {
  }

  /** Move right to the next edge. */
  method SeekForward(t: seq<Byte>, codepointEdges: bool, from: nat) returns (end: nat)
    requires from <= |t|
    ensures end == EdgeAtOrAfter(t, codepointEdges, from) && from <= end <= |t|
  {
    end := from;
    while end < |t| && !Edge(t, codepointEdges, end)
      invariant from <= end <= |t|
      invariant forall q: nat :: from <= q < end ==> !Edge(t, codepointEdges, q)
    {
      end := end + 1;
    }
  }

  /** Move left to an edge, no further than `floor`. */
  method SeekBackward(t: seq<Byte>, codepointEdges: bool, floor: nat, from: nat) returns (next: nat)
    requires floor <= from <= |t| && Edge(t, codepointEdges, floor)
    ensures next == EdgeAtOrBefore(t, codepointEdges, from)
  {
    next := from;
    while next > floor && !Edge(t, codepointEdges, next)
      invariant floor <= next <= from
      invariant forall q: nat :: next < q <= from ==> !Edge(t, codepointEdges, q)
    {
      next := next - 1;
    }
  }

  /** Where the range that starts at `start` ends. */
  function RangeEnd(t: seq<Byte>, chunkSize: nat, codepointEdges: bool, start: nat): (end: nat)
    ensures start <= |t| ==> start <= end && Edge(t, codepointEdges, end)
  {
    EdgeAtOrAfter(t, codepointEdges, Min(start + chunkSize, |t|))
  }

  /** Where the range after one that ends at `end` starts. */
  function NextStart(t: seq<Byte>, omega: nat, codepointEdges: bool, end: nat): (next: nat)
    requires omega <= end <= |t|
    ensures next <= end - omega && Edge(t, codepointEdges, next)
  {
    EdgeAtOrBefore(t, codepointEdges, end - omega)
  }

  /** On byte edges every range starts one chunk size less one overlap after the one before. */
  lemma ByteStride(t: seq<Byte>, chunkSize: nat, omega: nat, start: nat)
    requires omega <= chunkSize && start <= |t|
    ensures RangeEnd(t, chunkSize, false, start) == Min(start + chunkSize, |t|)
    ensures start + chunkSize <= |t| ==> NextStart(t, omega, false, start + chunkSize) == start + chunkSize - omega
  {
  }

  /**
   Room the encodings of a planned range can take: its own bytes, and all bytes up to its end
   once more if it has to be joined by an enlargement; one more for each call.
   */
  function RangeRoom(r: Range): nat {
    (if r.start <= r.end then r.end - r.start else 0) + 1 + if r.start == 0 then 0 else r.end + 1
  }

  function RangesRoom(ranges: seq<Range>): nat {
    if ranges == [] then 0 else RangesRoom(ranges[..|ranges| - 1]) + RangeRoom(ranges[|ranges| - 1])
  }

  /** The same for a plan on byte edges, from `start` on: known before anything is planned. */
  function StrideRoom(n: nat, chunkSize: nat, omega: nat, start: nat): nat
    requires omega < chunkSize
    decreases if start < n then n - start else 0
  {
    RangeRoom(Range(start, Min(start + chunkSize, n)))
    + if start + chunkSize < n then StrideRoom(n, chunkSize, omega, start + chunkSize - omega) else 0
  }

  lemma RoomStep(t: seq<Byte>, chunkSize: nat, omega: nat, ranges: seq<Range>, start: nat, end: nat, next: nat)
    requires omega < chunkSize && start <= |t| && end == RangeEnd(t, chunkSize, false, start)
    requires end < |t| ==> omega <= end && next == NextStart(t, omega, false, end)
    ensures RangesRoom(ranges + [Range(start, end)])
            + (if end < |t| then StrideRoom(|t|, chunkSize, omega, next) else 0)
            == RangesRoom(ranges) + StrideRoom(|t|, chunkSize, omega, start)
  {
    ByteStride(t, chunkSize, omega, start);
    assert (ranges + [Range(start, end)])[..|ranges|] == ranges;
  }

  /** From `start` on, some range that is not the last has no later start after it. */
  ghost predicate Stalls(t: seq<Byte>, chunkSize: nat, omega: nat, codepointEdges: bool, start: nat)
    requires omega <= chunkSize && start <= |t|
    decreases |t| - start
  {
    var end := RangeEnd(t, chunkSize, codepointEdges, start);
    end < |t| && var next := NextStart(t, omega, codepointEdges, end);
      next <= start || Stalls(t, chunkSize, omega, codepointEdges, next)
  }

  lemma StallStep(t: seq<Byte>, chunkSize: nat, omega: nat, codepointEdges: bool, start: nat, end: nat, next: nat)
    requires omega <= chunkSize && start <= |t| && end == RangeEnd(t, chunkSize, codepointEdges, start) <= |t|
    requires end < |t| ==> omega <= end && next == NextStart(t, omega, codepointEdges, end)
    ensures Stalls(t, chunkSize, omega, codepointEdges, start) <==>
              end < |t| && (next <= start || Stalls(t, chunkSize, omega, codepointEdges, next))
  {
  }

  /** What the chunk loop knows when it reaches `start`. */
  ghost predicate Reached(t: seq<Byte>, chunkSize: nat, omega: nat, codepointEdges: bool, ranges: seq<Range>,
                          start: nat) {
    && 0 < omega && 2 * omega <= chunkSize < |t| && start < |t| && Edge(t, codepointEdges, start)
    && (codepointEdges ==> Utf8.Valid(t))
    && Planned(t, chunkSize, omega, codepointEdges, ranges, start)
    && Stepped(t, chunkSize, omega, codepointEdges, ranges)
    && (ranges != [] ==> NextAfter(t, omega, codepointEdges, ranges[|ranges| - 1], start))
  }

  /** One turn of the chunk loop: the next range, and where the one after it starts. */
  method NextRange(t: seq<Byte>, chunkSize: nat, omega: nat, codepointEdges: bool, ghost ranges: seq<Range>, start: nat)
    returns (end: nat, next: nat)
    requires Reached(t, chunkSize, omega, codepointEdges, ranges, start)
    ensures end == RangeEnd(t, chunkSize, codepointEdges, start) <= |t|
    ensures end < |t| ==> omega <= end && next == NextStart(t, omega, codepointEdges, end)
    ensures end == |t| ==> Plan(t, omega, codepointEdges, ranges + [Range(start, end)])
    ensures Stepped(t, chunkSize, omega, codepointEdges, ranges + [Range(start, end)])
    ensures end < |t| && next <= start ==> codepointEdges && chunkSize < omega + 4
    ensures end < |t| && start < next ==>
              Reached(t, chunkSize, omega, codepointEdges, ranges + [Range(start, end)], next)
  {
    hide Plan, Planned, Edge, EdgeAtOrAfter, EdgeAtOrBefore, Utf8.Valid, Utf8.IsBoundary, Stepped, NextAfter;
    end := SeekForward(t, codepointEdges, Min(start + chunkSize, |t|));
    SteppedGrows(t, chunkSize, omega, codepointEdges, ranges, Range(start, end));
    next := 0;
    if end == |t| {
      PlanFinishes(t, chunkSize, omega, codepointEdges, ranges, start, Range(start, end));
    } else {
      next := SeekBackward(t, codepointEdges, start, end - omega);
      if !codepointEdges || omega + 4 <= chunkSize {
        StepAdvances(t, chunkSize, omega, codepointEdges, start, end);
      }
      if start < next {
        PlanContinues(t, chunkSize, omega, codepointEdges, ranges, start, Range(start, end), next);
        NextStartIsAfter(t, omega, codepointEdges, Range(start, end), next);
      }
    }
  }

  lemma ReachedInText(t: seq<Byte>, chunkSize: nat, omega: nat, codepointEdges: bool, ranges: seq<Range>, start: nat)
    requires Reached(t, chunkSize, omega, codepointEdges, ranges, start)
    ensures start < |t|
  {
  }

  // ------------------------------------------------------------------
  // Which plan it is
  // ------------------------------------------------------------------

  ghost predicate FirstEdgeFrom(t: seq<Byte>, codepointEdges: bool, from: nat, p: nat) {
    from <= p && Edge(t, codepointEdges, p) && forall q: nat :: from <= q < p ==> !Edge(t, codepointEdges, q)
  }

  ghost predicate LastEdgeUpTo(t: seq<Byte>, codepointEdges: bool, to: nat, p: nat) {
    p <= to && Edge(t, codepointEdges, p) && forall q: nat :: p < q <= to ==> !Edge(t, codepointEdges, q)
  }

  /**
   Every range ends at the first edge a chunk size after its start, and the next one starts
   at the last edge an overlap before that end.
   */
  ghost predicate Stepped(t: seq<Byte>, chunkSize: nat, omega: nat, codepointEdges: bool, ranges: seq<Range>) {
    && (forall k :: 0 <= k < |ranges| ==>
          FirstEdgeFrom(t, codepointEdges, Min(ranges[k].start + chunkSize, |t|), ranges[k].end))
    && forall k :: 0 < k < |ranges| ==> NextAfter(t, omega, codepointEdges, ranges[k - 1], ranges[k].start)
  }

  ghost predicate NextAfter(t: seq<Byte>, omega: nat, codepointEdges: bool, last: Range, start: nat) {
    omega <= last.end < |t| && LastEdgeUpTo(t, codepointEdges, last.end - omega, start)
  }

  lemma RangeEndIsFirst(t: seq<Byte>, chunkSize: nat, codepointEdges: bool, start: nat)
    requires start <= |t|
    ensures FirstEdgeFrom(t, codepointEdges, Min(start + chunkSize, |t|), RangeEnd(t, chunkSize, codepointEdges, start))
  {
  }

  lemma SteppedGrows(t: seq<Byte>, chunkSize: nat, omega: nat, codepointEdges: bool, ranges: seq<Range>, r: Range)
    requires Stepped(t, chunkSize, omega, codepointEdges, ranges) && r.start <= |t|
    requires r.end == RangeEnd(t, chunkSize, codepointEdges, r.start)
    requires ranges != [] ==> NextAfter(t, omega, codepointEdges, ranges[|ranges| - 1], r.start)
    ensures Stepped(t, chunkSize, omega, codepointEdges, ranges + [r])
  {
    RangeEndIsFirst(t, chunkSize, codepointEdges, r.start);
    hide NextAfter, Edge, FirstEdgeFrom, RangeEnd;
    var more := ranges + [r];
    forall k | 0 < k < |more|
      ensures NextAfter(t, omega, codepointEdges, more[k - 1], more[k].start)
    {
      assert more[k - 1] == ranges[k - 1];
    }
  }

  lemma NextStartIsAfter(t: seq<Byte>, omega: nat, codepointEdges: bool, last: Range, next: nat)
    requires omega <= last.end < |t| && next == NextStart(t, omega, codepointEdges, last.end)
    ensures NextAfter(t, omega, codepointEdges, last, next)
  {
  }

  lemma NothingStepped(t: seq<Byte>, chunkSize: nat, omega: nat, codepointEdges: bool)
    ensures Stepped(t, chunkSize, omega, codepointEdges, [])
  {
  }

  /** A text that fits one chunk is one range. */
  lemma OneRangeStepped(t: seq<Byte>, chunkSize: nat, omega: nat, codepointEdges: bool)
    requires |t| <= chunkSize
    ensures Stepped(t, chunkSize, omega, codepointEdges, [Range(0, |t|)])
  {
  }

  lemma {:induction false} SameAt(t: seq<Byte>, chunkSize: nat, omega: nat, codepointEdges: bool, a: seq<Range>,
                                  b: seq<Range>, k: nat)
    requires Plan(t, omega, codepointEdges, a) && Plan(t, omega, codepointEdges, b)
    requires Stepped(t, chunkSize, omega, codepointEdges, a) && Stepped(t, chunkSize, omega, codepointEdges, b)
    requires k < |a|
    ensures k < |b| && a[k] == b[k]
  {
    hide Plan, PlanRange, Neighbours, Edge, FirstEdgeFrom, LastEdgeUpTo;
    PlanStarts(t, omega, codepointEdges, a);
    PlanStarts(t, omega, codepointEdges, b);
    if k > 0 {
      SameAt(t, chunkSize, omega, codepointEdges, a, b, k - 1);
      assert NextAfter(t, omega, codepointEdges, a[k - 1], a[k].start);
      assert NextAfter(t, omega, codepointEdges, b[k - 1], b[k].start);
      SameStart(t, omega, codepointEdges, a[k - 1], a[k].start, b[k].start);
    }
    SameRange(t, chunkSize, codepointEdges, a[k], b[k]);
  }

  /** These steps leave only one plan. */
  lemma PlanIsUnique(t: seq<Byte>, chunkSize: nat, omega: nat, codepointEdges: bool, a: seq<Range>, b: seq<Range>)
    requires Plan(t, omega, codepointEdges, a) && Plan(t, omega, codepointEdges, b)
    requires Stepped(t, chunkSize, omega, codepointEdges, a) && Stepped(t, chunkSize, omega, codepointEdges, b)
    ensures a == b
  {
    PlanStarts(t, omega, codepointEdges, a);
    PlanStarts(t, omega, codepointEdges, b);
    hide Plan, Stepped;
    SameAt(t, chunkSize, omega, codepointEdges, a, b, |a| - 1);
    SameAt(t, chunkSize, omega, codepointEdges, b, a, |b| - 1);
    forall k | 0 <= k < |a|
      ensures a[k] == b[k]
    {
      SameAt(t, chunkSize, omega, codepointEdges, a, b, k);
    }
  }

  lemma SameStart(t: seq<Byte>, omega: nat, codepointEdges: bool, last: Range, p: nat, q: nat)
    requires NextAfter(t, omega, codepointEdges, last, p) && NextAfter(t, omega, codepointEdges, last, q)
    ensures p == q
  {
  }

  lemma PlanStarts(t: seq<Byte>, omega: nat, codepointEdges: bool, ranges: seq<Range>)
    requires Plan(t, omega, codepointEdges, ranges)
    ensures ranges != [] && ranges[0].start == 0 && ranges[|ranges| - 1].end == |t|
  {
  }

  /** Ranges that start together and end at the first edge from one place are equal. */
  lemma SameRange(t: seq<Byte>, chunkSize: nat, codepointEdges: bool, a: Range, b: Range)
    requires FirstEdgeFrom(t, codepointEdges, Min(a.start + chunkSize, |t|), a.end)
    requires FirstEdgeFrom(t, codepointEdges, Min(b.start + chunkSize, |t|), b.end)
    requires a.start == b.start
    ensures a == b
  {
  }

  lemma NoRangesRoom()
    ensures RangesRoom([]) == 0
  {
  }

  /**
   The chunk loop: a plan, or a report that a character is too wide for `omega`, given
   exactly when some reached start has no later start after it.
   */
  method ChunkRanges(t: seq<Byte>, chunkSize: nat, omega: nat, codepointEdges: bool)
    returns (r: Result<seq<Range>, ChunkError>)
    requires 0 < omega && 2 * omega <= chunkSize
    requires codepointEdges ==> Utf8.Valid(t)
    ensures r.Ok? ==> Plan(t, omega, codepointEdges, r.value)
    ensures |t| <= chunkSize ==> r == Ok([Range(0, |t|)])
    ensures r.Err? <==> |t| > chunkSize && Stalls(t, chunkSize, omega, codepointEdges, 0)
    ensures r.Err? ==> r.error == InvalidGeometry && codepointEdges && chunkSize < omega + 4
    ensures r.Ok? && !codepointEdges && chunkSize < |t| ==>
              RangesRoom(r.value) == StrideRoom(|t|, chunkSize, omega, 0)
    ensures r.Ok? ==> Stepped(t, chunkSize, omega, codepointEdges, r.value)
  {
    if |t| <= chunkSize {
      OneRangeStepped(t, chunkSize, omega, codepointEdges);
      return Ok([Range(0, |t|)]);
    }
    NothingPlanned(t, chunkSize, omega, codepointEdges);
    NothingStepped(t, chunkSize, omega, codepointEdges);
    hide Plan, Edge, RangesRoom, StrideRoom, RangeEnd, NextStart, Stalls, Reached, Stepped, NextAfter;
    var ranges: seq<Range> := [];
    var start := 0;
    NoRangesRoom();
    while true
      invariant start < |t| && Reached(t, chunkSize, omega, codepointEdges, ranges, start)
      invariant Stalls(t, chunkSize, omega, codepointEdges, 0) <==> Stalls(t, chunkSize, omega, codepointEdges, start)
      invariant !codepointEdges ==>
          RangesRoom(ranges) + StrideRoom(|t|, chunkSize, omega, start) == StrideRoom(|t|, chunkSize, omega, 0)
      decreases |t| - start
    {
      ReachedInText(t, chunkSize, omega, codepointEdges, ranges, start);
      var end, next := NextRange(t, chunkSize, omega, codepointEdges, ranges, start);
      StallStep(t, chunkSize, omega, codepointEdges, start, end, next);
      if !codepointEdges {
        RoomStep(t, chunkSize, omega, ranges, start, end, next);
      }
      ranges := ranges + [Range(start, end)];
      if end == |t| {
        return Ok(ranges);
      }
      if next <= start {
        return Err(InvalidGeometry);
      }
      ReachedInText(t, chunkSize, omega, codepointEdges, ranges, next);
      start := next;
    }
  }

  /** The chunk size a configuration asks for; `None` when it does not fit the machine word. */
  function ChunkSize(omega: nat, configured: Option<nat>, usizeMax: nat): Option<nat> {
    if configured.Some? then configured
    else if omega * DEFAULT_CHUNK_MULTIPLIER <= usizeMax then Some(omega * DEFAULT_CHUNK_MULTIPLIER)
    else None
  }

  /** Check the configuration, then plan; each refusal has its own cause. */
  method OverlapRanges(t: seq<Byte>, omega: nat, configured: Option<nat>, codepointEdges: bool, usizeMax: nat)
    returns (r: Result<seq<Range>, ChunkError>)
    ensures r.Ok? ==> omega > 0 && Plan(t, omega, codepointEdges, r.value)
    ensures r.Ok? ==> ChunkSize(omega, configured, usizeMax).Some?
    ensures r.Ok? ==> var size := ChunkSize(omega, configured, usizeMax).value;
                      2 * omega <= size && (|t| <= size ==> r.value == [Range(0, |t|)])
                      && (!codepointEdges && size < |t| ==> RangesRoom(r.value) == StrideRoom(|t|, size, omega, 0))
                      && Stepped(t, size, omega, codepointEdges, r.value)
    ensures r == Err(InvalidOmega) <==> omega == 0
    ensures r == Err(InvalidUtf8Pretoken) <==> omega > 0 && codepointEdges && !Utf8.Valid(t)
    ensures r == Err(ChunkSizeOverflow) <==>
              && omega > 0 && (codepointEdges ==> Utf8.Valid(t))
              && (2 * omega > usizeMax || ChunkSize(omega, configured, usizeMax).None?)
    ensures r == Err(InvalidGeometry) <==>
              && omega > 0 && (codepointEdges ==> Utf8.Valid(t)) && 2 * omega <= usizeMax
              && ChunkSize(omega, configured, usizeMax).Some?
              && var size := ChunkSize(omega, configured, usizeMax).value;
                 2 * omega <= size < |t| && Stalls(t, size, omega, codepointEdges, 0)
    ensures r == Err(InvalidGeometry) ==>
              codepointEdges && ChunkSize(omega, configured, usizeMax).value < omega + 4
    ensures r.Err? ==> r.error.InvalidOmega? || r.error.InvalidUtf8Pretoken? || r.error.ChunkSizeOverflow?
                       || r.error.ChunkTooSmall? || r.error.InvalidGeometry?
    ensures r.Err? && r.error.ChunkTooSmall? <==>
              && omega > 0 && (codepointEdges ==> Utf8.Valid(t)) && 2 * omega <= usizeMax
              && ChunkSize(omega, configured, usizeMax).Some?
              && ChunkSize(omega, configured, usizeMax).value < 2 * omega
  {
    hide Plan, Utf8.Valid;
    if omega == 0 {
      return Err(InvalidOmega);
    }
    if codepointEdges && !Utf8.Valid(t) {
      return Err(InvalidUtf8Pretoken);
    }
    if 2 * omega > usizeMax || ChunkSize(omega, configured, usizeMax).None? {
      return Err(ChunkSizeOverflow);
    }
    var size := ChunkSize(omega, configured, usizeMax).value;
    if size < 2 * omega {
      return Err(ChunkTooSmall(size, 2 * omega));
    }
    r := ChunkRanges(t, size, omega, codepointEdges);
  }

  /** No start stalls on byte edges, nor where any character fits before the overlap. */
  lemma {:induction false} RoomyAdvances(t: seq<Byte>, chunkSize: nat, omega: nat, codepointEdges: bool, start: nat)
    requires 0 < omega && 2 * omega <= chunkSize && start <= |t|
    requires codepointEdges ==> Utf8.Valid(t) && omega + 4 <= chunkSize
    ensures !Stalls(t, chunkSize, omega, codepointEdges, start)
    decreases |t| - start
  {
    hide Edge, EdgeAtOrAfter, EdgeAtOrBefore, Utf8.Valid;
    var end := RangeEnd(t, chunkSize, codepointEdges, start);
    RangeEndIsFar(t, chunkSize, codepointEdges, start);
    if end < |t| {
      StepAdvances(t, chunkSize, omega, codepointEdges, start, end);
      RoomyAdvances(t, chunkSize, omega, codepointEdges, NextStart(t, omega, codepointEdges, end));
    }
  }

  lemma RangeEndIsFar(t: seq<Byte>, chunkSize: nat, codepointEdges: bool, start: nat)
    requires start <= |t|
    ensures var end := RangeEnd(t, chunkSize, codepointEdges, start);
            end <= |t| && (end < |t| ==> start + chunkSize <= end)
  {
  }

  /**
   On character edges the chunk loop never reports an invalid geometry exactly when the
   longest character fits into a chunk before the overlap.
   */
  lemma CodepointGeometry(omega: nat, chunkSize: nat)
    requires 0 < omega && 2 * omega <= chunkSize
    ensures (forall t: seq<Byte> :: Utf8.Valid(t) && chunkSize < |t| ==> !Stalls(t, chunkSize, omega, true, 0))
            <==> omega + 4 <= chunkSize
  {
    hide Stalls;
    if omega + 4 <= chunkSize {
      forall t: seq<Byte> | Utf8.Valid(t) && chunkSize < |t|
        ensures !Stalls(t, chunkSize, omega, true, 0)
      {
        RoomyAdvances(t, chunkSize, omega, true, 0);
      }
    } else {
      WideCharacterStalls(omega, chunkSize);
    }
  }

  /** A reached start stalls exactly when its character is wider than what precedes the overlap. */
  lemma StallIsWideCharacter(t: seq<Byte>, omega: nat, start: nat, end: nat)
    requires Utf8.Valid(t) && Utf8.IsBoundary(t, start) && start + omega <= end < |t|
    ensures NextStart(t, omega, true, end) <= start <==> Utf8.CharWidth(t[start..]) > end - omega - start
  {
    Utf8.ValidSplit(t, start);
    var rest := t[start..];
    var w, p := Utf8.CharWidth(rest), end - omega;
    assert forall i :: 0 <= i < |rest| ==> rest[i] == t[start + i];
    if w <= p - start {
      Utf8.ValidStart(rest[w..]);
      assert Edge(t, true, start + w) by {
        assert start + w < |t| ==> rest[w..] != [] && rest[w..][0] == t[start + w];
      }
    } else {
      forall q: nat | start < q <= p
        ensures !Edge(t, true, q)
      {
        assert t[q] == rest[q - start];
      }
    }
  }

  /** A four-byte character and three letters. */
  function WideText(): seq<Byte> {
    [0xF0, 0x9F, 0x98, 0x80, 0x61, 0x61, 0x61]
  }

  /** A four-byte character at the start stalls every chunk size that leaves less room before the overlap. */
  lemma WideCharacterStalls(omega: nat, chunkSize: nat)
    requires 0 < omega && 2 * omega <= chunkSize < omega + 4
    ensures Utf8.Valid(WideText()) && chunkSize < |WideText()| && Stalls(WideText(), chunkSize, omega, true, 0)
  {
    var t := WideText();
    WideTextIsValid();
    assert Edge(t, true, 0) && !Edge(t, true, 1) && !Edge(t, true, 2) && !Edge(t, true, 3);
    assert Edge(t, true, 4) && Edge(t, true, 5) && Edge(t, true, 6);
    hide Edge, EdgeAtOrAfter, EdgeAtOrBefore, Utf8.Valid;
    var end := EdgeAtOrAfter(t, true, chunkSize);
    assert end == Max4(chunkSize) && end - omega < 4;
    assert EdgeAtOrBefore(t, true, end - omega) == 0;
  }

  function Max4(n: nat): nat {
    if n < 4 then 4 else n
  }

  lemma WideTextIsValid()
    ensures Utf8.Valid(WideText())
  {
    var a: seq<Byte> := [0x61];
    assert Utf8.Valid([]) && a[1..] == [] && Utf8.Valid(a);
    var t := WideText();
    assert Utf8.CharWidth(t) == 4 && t[4..][1..][1..] == a;
    assert Utf8.Valid(t[4..][1..]) && Utf8.Valid(t[4..]);
  }
}

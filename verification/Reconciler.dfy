/**
 The incremental reconciler that browser workers drive: the initial ranges are encoded
 elsewhere and come back flattened, and enlargements are requested one at a time.
 */
module Reconciler {
  import opened Prelude
  import opened Bpe
  import opened BpeCuts
  import opened ChunkPlan
  import opened Overlap

  datatype SessionError =
    | AlreadyAccepted
    | NotStarted
    | RangeCount(received: nat, expected: nat)
    | LengthsExceedBuffer
    | LengthsLeaveRest
    | Refused(error: ChunkError)

  lemma {:induction false} SumGrows(lengths: seq<nat>, k: nat)
    requires k <= |lengths|
    ensures Sum(lengths[..k]) <= Sum(lengths)
    decreases |lengths| - k
  {
    if k == |lengths| {
      assert lengths[..k] == lengths;
    } else {
      assert lengths[..k + 1][..k] == lengths[..k];
      SumGrows(lengths, k + 1);
    }
  }

  /** Concatenation of the results. */
  function Joined(parts: seq<seq<Token>>): seq<Token> {
    if parts == [] then [] else Joined(parts[..|parts| - 1]) + parts[|parts| - 1]
  }

  /**
   Cut a flat id buffer into results. The cut exists exactly when there is one length per
   range and the lengths use up the buffer, and then it loses and reorders nothing.
   */
  method SplitEncodedResults(flat: seq<Token>, lengths: seq<nat>, expected: nat)
    returns (r: Result<seq<seq<Token>>, SessionError>)
    ensures r.Ok? <==> |lengths| == expected && Sum(lengths) == |flat|
    ensures r.Ok? ==> |r.value| == expected && Joined(r.value) == flat
    ensures r.Ok? ==> forall k :: 0 <= k < expected ==> |r.value[k]| == lengths[k]
    ensures r.Err? ==> r.error == if |lengths| != expected then RangeCount(|lengths|, expected)
                                  else if Sum(lengths) > |flat| then LengthsExceedBuffer else LengthsLeaveRest
  {
    if |lengths| != expected {
      return Err(RangeCount(|lengths|, expected));
    }
    var offset := 0;
    var encoded: seq<seq<Token>> := [];
    for k := 0 to |lengths|
      invariant offset == Sum(lengths[..k]) <= |flat|
      invariant |encoded| == k && Joined(encoded) == flat[..offset]
      invariant forall j :: 0 <= j < k ==> |encoded[j]| == lengths[j]
    {
      var end := offset + lengths[k];
      assert lengths[..k + 1][..k] == lengths[..k];
      SumGrows(lengths, k + 1);
      if end > |flat| {
        return Err(LengthsExceedBuffer);
      }
      var part := flat[offset..end];
      assert (encoded + [part])[..k] == encoded;
      encoded := encoded + [part];
      offset := end;
    }
    assert lengths[..|lengths|] == lengths;
    if offset != |flat| {
      return Err(LengthsLeaveRest);
    }
    r := Ok(encoded);
  }

  /** Two cuts of one buffer at the same lengths are the same cut. */
  lemma {:induction false} CutIsUnique(a: seq<seq<Token>>, b: seq<seq<Token>>)
    requires |a| == |b| && Joined(a) == Joined(b) && forall k :: 0 <= k < |a| ==> |a[k]| == |b[k]|
    ensures a == b
  {
    if a != [] {
      var n := |a| - 1;
      var ja, jb := Joined(a[..n]), Joined(b[..n]);
      JoinedSize(a[..n], b[..n]);
      assert (ja + a[n])[..|ja|] == ja && (jb + b[n])[..|jb|] == jb;
      assert (ja + a[n])[|ja|..] == a[n] && (jb + b[n])[|jb|..] == b[n];
      CutIsUnique(a[..n], b[..n]);
      assert a == a[..n] + [a[n]] && b == b[..n] + [b[n]];
    }
  }

  lemma {:induction false} JoinedSize(a: seq<seq<Token>>, b: seq<seq<Token>>)
    requires |a| == |b| && forall k :: 0 <= k < |a| ==> |a[k]| == |b[k]|
    ensures |Joined(a)| == |Joined(b)|
  {
    if a != [] {
      JoinedSize(a[..|a| - 1], b[..|b| - 1]);
    }
  }

  /** One reconciliation session. */
  class OverlapSession {
    const ranges: seq<Range>
    const v: Vocab
    var state: Option<OverlapReconciliation>

    ghost predicate Valid(job: Job)
      reads this, if state.Some? then {state.value} else {}
    {
      && v == job.v && Sound(job) && job.omega > 0 && Plan(job.text, job.omega, job.codepointEdges, ranges)
      && (state.Some? ==> state.value.AtRest(job))
    }

    constructor (ranges: seq<Range>, v: Vocab)
      ensures this.ranges == ranges && this.v == v && state == None
    {
      this.ranges, this.v, state := ranges, v, None;
    }

    /** The range whose encoding is awaited, if any. */
    function Requested(): Option<Range>
      reads this, if state.Some? then {state.value} else {}
    {
      if state.Some? then state.value.RequestedRange() else None
    }

    /** Take the workers' encodings of the planned ranges, once. */
    method AcceptInitial(ghost job: Job, flat: seq<Token>, lengths: seq<nat>, ghost exact: seq<seq<Token>>)
      returns (r: Result<Option<Range>, SessionError>)
      requires Valid(job)
      requires |exact| == |ranges| && ExactResults(job, ranges, exact)
      requires |lengths| == |ranges| && Sum(lengths) == |flat| ==>
                 Joined(exact) == flat && forall k :: 0 <= k < |exact| ==> |exact[k]| == lengths[k]
      modifies this
      ensures Valid(job)
      ensures old(state).Some? ==> r == Err(AlreadyAccepted) && state == old(state)
      ensures old(state).None? ==> (r.Ok? <==> |lengths| == |ranges| && Sum(lengths) == |flat|)
      ensures old(state).None? && r.Err? ==> state == None
      ensures r.Ok? ==> state.Some? && fresh(state.value) && r.value == Requested()
      ensures r.Ok? ==> ranges != [] && state.value.AllEnlargements(job) == PlanEnlargements(job, ranges)
    {
      hide Sound, Plan, ExactResults, OverlapReconciliation.Inv, OverlapReconciliation.AllEnlargements,
           OverlapReconciliation.LongestOfAll;
      if state.Some? {
        return Err(AlreadyAccepted);
      }
      var split := SplitEncodedResults(flat, lengths, |ranges|);
      if split.Err? {
        return Err(split.error);
      }
      CutIsUnique(split.value, exact);
      var started := OverlapReconciliation.Start(job, v, ranges, split.value);
      state := Some(started.value);
      r := Ok(started.value.RequestedRange());
    }

    /** Take the encoding of the requested range. */
    method AcceptEnlargement(ghost job: Job, ids: seq<Token>) returns (r: Result<Option<Range>, SessionError>)
      requires Valid(job)
      requires Requested().Some? ==> ids == job.encode(job.text[Requested().value.start..Requested().value.end])
      modifies if state.Some? then {state.value} else {}
      ensures Valid(job)
      ensures state.None? ==> r == Err(NotStarted)
      ensures state.Some? && old(Requested()).None? ==> r == Err(Refused(InvalidGeometry)) && Requested().None?
      ensures old(Requested()).Some? ==> r == Ok(Requested())
      ensures old(Requested()).Some? ==>
                && (r.value.Some? ==> |state.value.right| < |old(state.value.right)|)
                && state.value.enlargements == old(state.value.enlargements) + (if r.value.Some? then 1 else 0)
                && state.value.AllEnlargements(job) == old(state.value.AllEnlargements(job))
    {
      hide Sound, Plan, OverlapReconciliation.Inv, OverlapReconciliation.AllEnlargements,
           OverlapReconciliation.LongestOfAll;
      if state.None? {
        return Err(NotStarted);
      }
      var accepted := state.value.AcceptEnlargement(job, v, ids);
      if accepted.Err? {
        return Err(Refused(accepted.error));
      }
      r := Ok(state.value.RequestedRange());
    }

    /**
     End the session: the whole text's encoding when nothing is awaited. Asked too early
     it refuses, and the session is over all the same.
     */
    method TakeIds(ghost job: Job) returns (r: Result<seq<Token>, SessionError>)
      requires Valid(job)
      modifies this
      ensures Valid(job) && state == None
      ensures old(state).None? ==> r == Err(NotStarted)
      ensures old(state).Some? && old(Requested()).Some? ==> r == Err(Refused(InvalidGeometry))
      ensures old(state).Some? && old(Requested()).None? ==> r == Ok(job.encode(job.text))
    {
      hide Sound, Plan, OverlapReconciliation.Inv;
      if state.None? {
        return Err(NotStarted);
      }
      var machine := state.value;
      state := None;
      var finished := machine.Finish(job);
      r := if finished.Ok? then Ok(finished.value.ids) else Err(Refused(finished.error));
    }
  }
}

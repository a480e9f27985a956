/**
 Encoders with private caches behind one pool, and tasks that reach them one locked
 call at a time. A task is one pretoken: a single call, or the chunks of a plan followed
 by the enlargements its reconciliation asks for.
 */
module WorkerPool {
  import opened Prelude
  import opened Bpe
  import opened BpeCuts
  import opened ForceSplit
  import opened ByteLevel
  import opened ChunkPlan
  import opened Overlap
  import opened MemoEntries
  import opened MemoEncoder
  import ShortCache
  import LongCache

  /** Private encoders of one model. */
  class EncoderPool {
    const slots: seq<Encoder>

    /** No two slots share any state. */
    ghost predicate Apart() {
      forall i, j :: 0 <= i < j < |slots| ==>
        slots[i] != slots[j] && slots[i].short != slots[j].short && slots[i].long != slots[j].long
    }

    ghost function Repr(): set<object> {
      (set i | 0 <= i < |slots| :: slots[i] as object)
      + (set i | 0 <= i < |slots| :: slots[i].short as object)
      + (set i | 0 <= i < |slots| :: slots[i].long as object)
    }

    /** Every slot is exact for the model and has room for `extra` more bytes. */
    ghost predicate Ready(model: ByteModel, extra: nat)
      reads set i | 0 <= i < |slots| :: slots[i]
      reads set i | 0 <= i < |slots| :: slots[i].short
      reads set i | 0 <= i < |slots| :: slots[i].long
      reads set i | 0 <= i < |slots| :: slots[i].bigrams.bits
    {
      && slots != [] && Apart()
      && forall i :: 0 <= i < |slots| ==> slots[i].Valid() && slots[i].model == model && slots[i].Room(extra)
    }

    constructor (slots: seq<Encoder>)
      ensures this.slots == slots
    {
      this.slots := slots;
    }

    /** One locked call: whichever slot the caller lands on, the pretoken's uncached encoding. */
    method Encode(ghost model: ByteModel, t: seq<Byte>, ghost extra: nat) returns (ids: seq<Token>)
      requires Ready(model, |t| + 1 + extra) && SpellsBytes(model.v, model.base, t)
      modifies Repr()
      ensures Ready(model, extra) && ids == Uncached(model, t)
    {
      hide Encoder.Valid, Encoder.Loaded, SpellsBytes, Uncached;
      var slot :| 0 <= slot < |slots|;
      var out := new Output();
      CostOne(model, t);
      slots[slot].EncodeFlat([t], out);
      ids := out.memory[..out.len];
    }

    /** One locked call on several pretokens, appending their encodings to `out`. */
    method EncodeBatch(ghost model: ByteModel, ts: seq<seq<Byte>>, out: Output, ghost extra: nat)
      requires Ready(model, Cost(ts) + extra) && out.Valid()
      requires forall i :: 0 <= i < |ts| ==> SpellsBytes(model.v, model.base, ts[i])
      modifies Repr(), out
      ensures Ready(model, extra) && out.Valid() && out.Ids() == old(out.Ids()) + EncodeEach(model, ts)
    {
      hide Encoder.Valid, Encoder.Loaded, SpellsBytes, EncodeEach;
      var slot :| 0 <= slot < |slots|;
      slots[slot].EncodeFlat(ts, out);
    }
  }

  lemma CostOne(model: ByteModel, t: seq<Byte>)
    ensures Cost([t]) == |t| + 1 && EncodeEach(model, [t]) == Uncached(model, t)
  {
    var one: seq<seq<Byte>> := [t];
    assert one[1..] == [] && one[..0] == [];
    assert EncodeEach(model, one) == [] + Uncached(model, t);
  }

  // ------------------------------------------------------------------
  // Tasks
  // ------------------------------------------------------------------

  /** One pretoken on its way through the pool. */
  datatype Task =
    | Single
    | Collecting(ranges: seq<Range>, got: seq<Option<seq<Token>>>)
    | Reconciling(machine: OverlapReconciliation)
    | Done(ids: seq<Token>)

  /** Room the ranges not encoded yet can take. */
  function MissingRoom(ranges: seq<Range>, got: seq<Option<seq<Token>>>): nat
    requires |ranges| == |got|
  {
    if got == [] then 0
    else
      var n := |got| - 1;
      MissingRoom(ranges[..n], got[..n]) + if got[n].None? then OwnRoom(ranges[n]) else 0
  }

  /** Room one range's own encoding can take. */
  function OwnRoom(r: Range): (room: nat)
    ensures room > 0
  {
    (if r.start <= r.end then r.end - r.start else 0) + 1
  }

  lemma {:induction false} MissingFilled(ranges: seq<Range>, got: seq<Option<seq<Token>>>, k: nat, ids: seq<Token>)
    requires k < |got| == |ranges| && got[k].None?
    ensures MissingRoom(ranges, got[k := Some(ids)]) + OwnRoom(ranges[k]) == MissingRoom(ranges, got)
  {
    var n := |got| - 1;
    var after := got[k := Some(ids)];
    if k < n {
      assert after[..n] == got[..n][k := Some(ids)];
      MissingFilled(ranges[..n], got[..n], k, ids);
    } else {
      assert after[..n] == got[..n];
    }
  }

  lemma {:induction false} NoneMissing(ranges: seq<Range>, got: seq<Option<seq<Token>>>)
    requires |got| == |ranges|
    ensures MissingRoom(ranges, got) == 0 <==> forall k :: 0 <= k < |got| ==> got[k].Some?
  {
    if got != [] {
      NoneMissing(ranges[..|got| - 1], got[..|got| - 1]);
    }
  }

  /** The results so far are exact, each for its own range. */
  ghost predicate GotExact(job: Job, ranges: seq<Range>, got: seq<Option<seq<Token>>>) {
    && |got| == |ranges|
    && (forall k :: 0 <= k < |ranges| ==> ranges[k].start <= ranges[k].end <= |job.text|)
    && forall k :: 0 <= k < |got| && got[k].Some? ==>
         got[k].value == job.encode(job.text[ranges[k].start..ranges[k].end])
  }

  /** A plan some of whose ranges are still to be encoded, with room for them and all enlargements. */
  ghost predicate CollectingOk(job: Job, ranges: seq<Range>, got: seq<Option<seq<Token>>>, room: nat) {
    && Plan(job.text, job.omega, job.codepointEdges, ranges) && GotExact(job, ranges, got)
    && 0 < MissingRoom(ranges, got) && MissingRoom(ranges, got) + AgainRoom(ranges[1..]) <= room
  }

  /** A task in good order whose remaining calls take at most `room`. */
  ghost predicate TaskOk(job: Job, task: Task, room: nat)
    reads if task.Reconciling? then {task.machine} else {}
  {
    match task
    case Single => |job.text| + 1 <= room
    case Collecting(ranges, got) => CollectingOk(job, ranges, got, room)
    case Reconciling(machine) =>
      machine.AtRest(job) && machine.pending.Some? && machine.pending.value.end + 1 + QueueRoom(machine.right) <= room
    case Done(ids) => ids == job.encode(job.text)
  }

  ghost predicate JobFits(job: Job, model: ByteModel) {
    && job == ByteJob(model, job.text, job.omega) && Sound(job) && job.omega > 0
    && SpellsBytes(model.v, model.base, job.text)
  }

  lemma SliceSpells(v: Vocab, base: ByteMap, t: seq<Byte>, p: nat, q: nat)
    requires SpellsBytes(v, base, t) && p <= q <= |t|
    ensures SpellsBytes(v, base, t[p..q])
  {
  }

  /** Encode one planned range; start the reconciliation once all are there. */
  method StepCollecting(pool: EncoderPool, ghost model: ByteModel, v: Vocab, text: seq<Byte>, ghost job: Job,
                        task: Task, ghost room: nat, ghost extra: nat) returns (next: Task, ghost left: nat)
    requires task.Collecting? && JobFits(job, model) && TaskOk(job, task, room) && text == job.text && v == job.v
    requires pool.Ready(model, room + extra)
    modifies pool.Repr()
    ensures left < room && pool.Ready(model, left + extra) && TaskOk(job, next, left)
    ensures next.Reconciling? ==> fresh(next.machine)
  {
    hide EncoderPool.Ready, Sound, Plan, OverlapReconciliation.AtRest, SpellsBytes, Uncached, AgainRoom;
    var ranges, got := task.ranges, task.got;
    NoneMissing(ranges, got);
    var k :| 0 <= k < |got| && got[k].None?;
    var r := ranges[k];
    SliceSpells(model.v, model.base, text, r.start, r.end);
    MissingFilled(ranges, got, k, []);
    left := room - OwnRoom(r);
    var ids := pool.Encode(model, text[r.start..r.end], left + extra);
    MissingFilled(ranges, got, k, ids);
    got := got[k := Some(ids)];
    NoneMissing(ranges, got);
    if forall j :: 0 <= j < |got| ==> got[j].Some? {
      next := StartTask(v, job, ranges, got);
      NextTaskOk(job, next, AgainRoom(ranges[1..]), left);
    } else {
      next := Collecting(ranges, got);
    }
  }

  lemma NextTaskOk(job: Job, task: Task, room: nat, more: nat)
    requires TaskOk(job, task, room) && room <= more
    ensures TaskOk(job, task, more)
  {
  }

  lemma LessRoom(pool: EncoderPool, model: ByteModel, extra: nat, less: nat)
    requires pool.Ready(model, extra) && less <= extra
    ensures pool.Ready(model, less)
  {
    hide Encoder.Valid;
  }

  /** All chunks are encoded: reconcile as far as they go. */
  method StartTask(v: Vocab, ghost job: Job, ranges: seq<Range>, got: seq<Option<seq<Token>>>) returns (next: Task)
    requires v == job.v && Sound(job) && job.omega > 0 && Plan(job.text, job.omega, job.codepointEdges, ranges)
    requires ranges != [] && GotExact(job, ranges, got) && forall k :: 0 <= k < |got| ==> got[k].Some?
    ensures TaskOk(job, next, AgainRoom(ranges[1..])) && (next.Reconciling? ==> fresh(next.machine))
  {
    hide Sound, Plan, OverlapReconciliation.Inv;
    var encoded := seq(|got|, k requires 0 <= k < |got| => got[k].value);
    assert ExactResults(job, ranges, encoded);
    var started := OverlapReconciliation.Start(job, v, ranges, encoded);
    next := Settle(job, started.value, AgainRoom(ranges[1..]));
  }

  /** A machine that awaits nothing is done. */
  method Settle(ghost job: Job, machine: OverlapReconciliation, ghost room: nat) returns (next: Task)
    requires machine.AtRest(job)
    requires machine.pending.Some? ==> machine.pending.value.end + 1 + QueueRoom(machine.right) <= room
    ensures TaskOk(job, next, room) && if machine.pending.None? then next.Done? else next == Reconciling(machine)
  {
    hide OverlapReconciliation.Inv;
    if machine.RequestedRange().Some? {
      return Reconciling(machine);
    }
    var finished := machine.Finish(job);
    next := Done(finished.value.ids);
  }

  /** Encode the enlarged range a reconciliation asked for. */
  method StepReconciling(pool: EncoderPool, ghost model: ByteModel, v: Vocab, text: seq<Byte>, ghost job: Job,
                         task: Task, ghost room: nat, ghost extra: nat) returns (next: Task, ghost left: nat)
    requires task.Reconciling? && JobFits(job, model) && TaskOk(job, task, room) && text == job.text && v == job.v
    requires pool.Ready(model, room + extra)
    modifies pool.Repr(), task.machine
    ensures left < room && pool.Ready(model, left + extra) && TaskOk(job, next, left)
    ensures next.Reconciling? ==> next.machine == task.machine
  {
    hide EncoderPool.Ready, Sound, SpellsBytes, Uncached, OverlapReconciliation.Inv, QueueRoom;
    var machine := task.machine;
    RequestedInText(job, machine);
    var r := machine.RequestedRange().value;
    SliceSpells(model.v, model.base, text, r.start, r.end);
    left := room - (r.end + 1);
    var ids := pool.Encode(model, text[r.start..r.end], left + extra);
    var accepted := machine.AcceptEnlargement(job, v, ids);
    next := Settle(job, machine, left);
  }

  /** An enlargement starts where the text does. */
  lemma RequestedInText(job: Job, machine: OverlapReconciliation)
    requires machine.AtRest(job) && machine.pending.Some?
    ensures 0 == machine.pending.value.start <= machine.pending.value.end <= |job.text|
  {
  }

  /** Any unfinished task takes one locked call closer to its end. */
  method Step(pool: EncoderPool, ghost model: ByteModel, v: Vocab, text: seq<Byte>, ghost job: Job,
              task: Task, ghost room: nat, ghost extra: nat) returns (next: Task, ghost left: nat)
    requires !task.Done? && JobFits(job, model) && TaskOk(job, task, room) && text == job.text && v == job.v
    requires pool.Ready(model, room + extra)
    modifies pool.Repr(), if task.Reconciling? then {task.machine} else {}
    ensures left < room && pool.Ready(model, left + extra) && TaskOk(job, next, left)
    ensures next.Reconciling? ==> fresh(next.machine) || (task.Reconciling? && next.machine == task.machine)
  {
    hide EncoderPool.Ready, Sound, SpellsBytes, Uncached, Plan;
    match task {
      case Single =>
        left := room - (|text| + 1);
        var ids := pool.Encode(model, text, left + extra);
        next := Done(ids);
      case Collecting(_, _) => next, left := StepCollecting(pool, model, v, text, job, task, room, extra);
      case Reconciling(_) => next, left := StepReconciling(pool, model, v, text, job, task, room, extra);
    }
  }

  // ------------------------------------------------------------------
  // Starting and finishing a task
  // ------------------------------------------------------------------

  /** Room the calls of a pretoken of `n` bytes can take, known from its length. */
  function TaskRoom(n: nat, chunkSize: nat, omega: nat): nat {
    if n <= chunkSize || chunkSize <= omega then n + 1 else StrideRoom(n, chunkSize, omega, 0)
  }

  lemma {:induction false} AgainAppend(ranges: seq<Range>, r: Range)
    ensures AgainRoom(ranges + [r]) == AgainRoom(ranges) + r.end + 1
  {
    if ranges == [] {
      assert (ranges + [r])[1..] == [];
    } else {
      assert (ranges + [r])[1..] == ranges[1..] + [r];
      AgainAppend(ranges[1..], r);
    }
  }

  /** With nothing encoded yet a plan's room is that of all its ranges. */
  lemma {:induction false} PlanRoom(ranges: seq<Range>, got: seq<Option<seq<Token>>>)
    requires |ranges| == |got| > 0 && ranges[0].start == 0 && forall k :: 0 <= k < |got| ==> got[k].None?
    requires forall k :: 0 < k < |ranges| ==> ranges[k].start > 0
    ensures RangesRoom(ranges) == MissingRoom(ranges, got) + AgainRoom(ranges[1..])
  {
    var n := |ranges| - 1;
    if n > 0 {
      PlanRoom(ranges[..n], got[..n]);
      AgainAppend(ranges[..n][1..], ranges[n]);
      assert ranges[1..] == ranges[..n][1..] + [ranges[n]];
    } else {
      assert ranges[..0] == [] && got[..0] == [] && ranges[1..] == [];
    }
  }

  lemma {:induction false} LaterStarts(t: seq<Byte>, omega: nat, codepointEdges: bool, ranges: seq<Range>, k: nat)
    requires Plan(t, omega, codepointEdges, ranges) && 0 < k < |ranges|
    ensures ranges[k].start > 0
  {
    hide PlanRange;
    assert Neighbours(omega, codepointEdges, ranges[k - 1], ranges[k]);
  }

  lemma RoomOfPlan(t: seq<Byte>, omega: nat, codepointEdges: bool, ranges: seq<Range>, got: seq<Option<seq<Token>>>)
    requires Plan(t, omega, codepointEdges, ranges) && |got| == |ranges|
    requires forall k :: 0 <= k < |got| ==> got[k].None?
    ensures ranges != [] && RangesRoom(ranges) == MissingRoom(ranges, got) + AgainRoom(ranges[1..])
    ensures MissingRoom(ranges, got) > 0
  {
    hide PlanRange, Neighbours, RangesRoom;
    forall k | 0 < k < |ranges|
      ensures ranges[k].start > 0
    {
      LaterStarts(t, omega, codepointEdges, ranges, k);
    }
    PlanRoom(ranges, got);
    NoneMissing(ranges, got);
  }

  /** A plan in order, with nothing encoded yet. */
  lemma NothingGot(job: Job, ranges: seq<Range>)
    requires Plan(job.text, job.omega, job.codepointEdges, ranges)
    ensures CollectingOk(job, ranges, seq(|ranges|, _ => None), RangesRoom(ranges))
  {
    hide Plan, RangesRoom;
    PlanInText(job.text, job.omega, job.codepointEdges, ranges);
    RoomOfPlan(job.text, job.omega, job.codepointEdges, ranges, seq(|ranges|, _ => None));
  }

  /** Plan a pretoken: one call if it is short, overlapping chunks if it is long. */
  method BeginTask(text: seq<Byte>, omega: nat, chunkSize: nat, usizeMax: nat, ghost job: Job)
    returns (r: Result<Task, ChunkError>)
    requires job.text == text && job.omega == omega && !job.codepointEdges && omega > 0
    ensures r.Ok? <==> |text| <= chunkSize || (2 * omega <= usizeMax && 2 * omega <= chunkSize)
    ensures r.Ok? ==> TaskOk(job, r.value, TaskRoom(|text|, chunkSize, omega))
    ensures r.Ok? ==> if |text| <= chunkSize then r.value.Single? else r.value.Collecting?
    ensures r.Ok? && r.value.Collecting? ==>
              && Stepped(text, chunkSize, omega, false, r.value.ranges)
              && forall k :: 0 <= k < |r.value.got| ==> r.value.got[k].None?
    ensures r.Err? ==> if 2 * omega > usizeMax then r.error.ChunkSizeOverflow? else r.error.ChunkTooSmall?
  {
    if |text| <= chunkSize {
      return Ok(Single);
    }
    hide Plan, StrideRoom, RangesRoom, CollectingOk, Stepped;
    var planned := OverlapRanges(text, omega, Some(chunkSize), false, usizeMax);
    if planned.Err? {
      return Err(planned.error);
    }
    NothingGot(job, planned.value);
    r := Ok(Collecting(planned.value, seq(|planned.value|, _ => None)));
  }

  /** Run one task to its end. */
  method RunTask(pool: EncoderPool, ghost model: ByteModel, v: Vocab, text: seq<Byte>, ghost job: Job,
                 begun: Task, ghost room: nat, ghost extra: nat) returns (ids: seq<Token>)
    requires JobFits(job, model) && TaskOk(job, begun, room) && text == job.text && v == job.v
    requires !begun.Reconciling? && pool.Ready(model, room + extra)
    modifies pool.Repr()
    ensures pool.Ready(model, extra) && ids == Uncached(model, text)
  {
    hide EncoderPool.Ready, JobFits, TaskOk, Uncached;
    var task := begun;
    ghost var left: nat := room;
    while !task.Done?
      invariant TaskOk(job, task, left) && pool.Ready(model, left + extra)
      invariant task.Reconciling? ==> fresh(task.machine)
      decreases left
    {
      task, left := Step(pool, model, v, text, job, task, left, extra);
    }
    LessRoom(pool, model, left + extra, extra);
    DoneIds(job, model, task, left);
    ids := task.ids;
  }

  lemma DoneIds(job: Job, model: ByteModel, task: Task, room: nat)
    requires JobFits(job, model) && TaskOk(job, task, room) && task.Done?
    ensures task.ids == Uncached(model, job.text)
  {
  }
}

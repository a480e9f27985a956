/**
 Threaded encoding: every pretoken is a task, and a scheduler may run any unfinished
 task on any private encoder, one locked call at a time.
 */
module Threaded {
  import opened Prelude
  import opened Bpe
  import opened BpeCuts
  import opened FromRanks
  import opened ByteLevel
  import opened ChunkPlan
  import opened Overlap
  import opened MemoEntries
  import opened MemoEncoder
  import opened Packing
  import opened WorkerPool
  import LongCache
  import Utf8

  /** One private fork of the prototype per worker. */
  method PoolOfForks(prototype: Encoder, workers: nat, ghost extra: nat) returns (pool: EncoderPool)
    requires prototype.Valid() && workers > 0
    requires SHORT_MAX * (|prototype.model.v| + |prototype.model.added|) + extra < LongCache.EMPTY_OFFSET
    ensures fresh(pool) && fresh(pool.Repr()) && |pool.slots| == workers && pool.Ready(prototype.model, extra)
  {
    hide Encoder.Valid;
    var slots: seq<Encoder> := [];
    ghost var model := prototype.model;
    for k := 0 to workers
      invariant |slots| == k
      invariant forall i :: 0 <= i < k ==> fresh(slots[i]) && fresh(slots[i].short) && fresh(slots[i].long)
      invariant forall i :: 0 <= i < k ==> slots[i].Valid() && slots[i].model == model && slots[i].Room(extra)
      invariant forall i, j :: 0 <= i < j < k ==>
          slots[i] != slots[j] && slots[i].short != slots[j].short && slots[i].long != slots[j].long
    {
      var fork := prototype.Fork(0);
      slots := slots + [fork];
    }
    pool := new EncoderPool(slots);
  }

  // ------------------------------------------------------------------
  // Scheduling
  // ------------------------------------------------------------------

  lemma {:induction false} SumUpdate(ns: seq<nat>, k: nat, n: nat)
    requires k < |ns|
    ensures Sum(ns[k := n]) + ns[k] == Sum(ns) + n
  {
    var last := |ns| - 1;
    var after := ns[k := n];
    if k < last {
      assert after[..last] == ns[..last][k := n];
      SumUpdate(ns[..last], k, n);
    } else {
      assert after[..last] == ns[..last];
    }
  }

  /** Room each pretoken's calls can take. */
  function TaskRooms(texts: seq<seq<Byte>>, chunkSize: nat, omega: nat): (rooms: seq<nat>)
    ensures |rooms| == |texts| && forall i :: 0 <= i < |texts| ==> rooms[i] == TaskRoom(|texts[i]|, chunkSize, omega)
  {
    seq(|texts|, i requires 0 <= i < |texts| => TaskRoom(|texts[i]|, chunkSize, omega))
  }

  /** Every task is in order, and no two share a reconciliation. */
  ghost predicate AllOk(model: ByteModel, omega: nat, texts: seq<seq<Byte>>, tasks: seq<Task>,
                        rooms: seq<nat>): (ok: bool)
    reads set i | 0 <= i < |tasks| && tasks[i].Reconciling? :: tasks[i].machine
    ensures ok ==> |tasks| == |texts| == |rooms|
  {
    && |tasks| == |texts| == |rooms|
    && (forall i :: 0 <= i < |tasks| ==> TaskOk(ByteJob(model, texts[i], omega), tasks[i], rooms[i]))
    && forall i, j :: 0 <= i < j < |tasks| && tasks[i].Reconciling? && tasks[j].Reconciling? ==>
         tasks[i].machine != tasks[j].machine
  }

  ghost predicate AllFit(model: ByteModel, omega: nat, texts: seq<seq<Byte>>) {
    forall i :: 0 <= i < |texts| ==> JobFits(ByteJob(model, texts[i], omega), model)
  }

  /** One scheduled call: task `i` advances, the others are untouched. */
  method StepTask(pool: EncoderPool, ghost model: ByteModel, v: Vocab, omega: nat, texts: seq<seq<Byte>>,
                  tasks: seq<Task>, ghost rooms: seq<nat>, i: nat, ghost extra: nat)
    returns (next: seq<Task>, ghost left: seq<nat>)
    requires AllFit(model, omega, texts) && AllOk(model, omega, texts, tasks, rooms) && v == model.v
    requires i < |tasks| && !tasks[i].Done? && pool.Ready(model, Sum(rooms) + extra)
    modifies pool.Repr(), set k | 0 <= k < |tasks| && tasks[k].Reconciling? :: tasks[k].machine
    ensures AllOk(model, omega, texts, next, left) && pool.Ready(model, Sum(left) + extra) && Sum(left) < Sum(rooms)
    ensures forall k :: 0 <= k < |next| ==> k == i || next[k] == tasks[k]
    ensures next[i].Reconciling? ==>
              fresh(next[i].machine) || (tasks[i].Reconciling? && next[i].machine == tasks[i].machine)
  {
    hide EncoderPool.Ready, TaskOk, JobFits, Sum;
    ghost var job := ByteJob(model, texts[i], omega);
    SumUpdate(rooms, i, 0);
    ghost var others := Sum(rooms[i := 0]);
    var task, room := Step(pool, model, v, texts[i], job, tasks[i], rooms[i], others + extra);
    next := tasks[i := task];
    left := rooms[i := room];
    SumUpdate(rooms, i, room);
  }

  /** Plan every pretoken. */
  method BeginAll(model: ByteModel, omega: nat, usizeMax: nat, texts: seq<seq<Byte>>) returns (tasks: seq<Task>)
    requires 0 < omega && omega * DEFAULT_CHUNK_MULTIPLIER <= usizeMax
    ensures AllOk(model, omega, texts, tasks, TaskRooms(texts, omega * DEFAULT_CHUNK_MULTIPLIER, omega))
    ensures forall i :: 0 <= i < |tasks| ==> !tasks[i].Reconciling?
  {
    hide TaskOk, TaskRoom;
    tasks := [];
    for i := 0 to |texts|
      invariant |tasks| == i
      invariant forall k :: 0 <= k < i ==> !tasks[k].Reconciling?
      invariant forall k :: 0 <= k < i ==>
          TaskOk(ByteJob(model, texts[k], omega), tasks[k],
                 TaskRoom(|texts[k]|, omega * DEFAULT_CHUNK_MULTIPLIER, omega))
    {
      ghost var job := ByteJob(model, texts[i], omega);
      var task := BeginTask(texts[i], omega, omega * DEFAULT_CHUNK_MULTIPLIER, usizeMax, job);
      tasks := tasks + [task.value];
    }
  }

  /** Run the tasks to their ends, in whatever order and on whatever slots. */
  method Schedule(pool: EncoderPool, ghost model: ByteModel, v: Vocab, omega: nat, texts: seq<seq<Byte>>,
                  begun: seq<Task>, ghost rooms: seq<nat>, ghost extra: nat)
    returns (tasks: seq<Task>, ghost left: seq<nat>)
    requires AllFit(model, omega, texts) && AllOk(model, omega, texts, begun, rooms) && v == model.v
    requires forall i :: 0 <= i < |begun| ==> !begun[i].Reconciling?
    requires pool.Ready(model, Sum(rooms) + extra)
    modifies pool.Repr()
    ensures pool.Ready(model, extra) && AllOk(model, omega, texts, tasks, left)
    ensures forall i :: 0 <= i < |tasks| ==> tasks[i].Done?
  {
    hide EncoderPool.Ready, TaskOk, AllFit, AllOk, Sum;
    tasks, left := begun, rooms;
    while exists i :: 0 <= i < |tasks| && !tasks[i].Done?
      invariant AllOk(model, omega, texts, tasks, left)
      invariant forall i :: 0 <= i < |tasks| && tasks[i].Reconciling? ==> fresh(tasks[i].machine)
      invariant pool.Ready(model, Sum(left) + extra)
      decreases Sum(left)
    {
      var i :| 0 <= i < |tasks| && !tasks[i].Done?;
      tasks, left := StepTask(pool, model, v, omega, texts, tasks, left, i, extra);
    }
    LessRoom(pool, model, Sum(left) + extra, extra);
  }

  /** Concatenate the finished results in pretoken order. */
  method Assemble(ghost model: ByteModel, ghost omega: nat, texts: seq<seq<Byte>>, tasks: seq<Task>,
                  ghost rooms: seq<nat>)
    returns (ids: seq<Token>)
    requires AllFit(model, omega, texts) && AllOk(model, omega, texts, tasks, rooms)
    requires forall i :: 0 <= i < |tasks| ==> tasks[i].Done?
    ensures ids == EncodeEach(model, texts)
  {
    hide TaskOk, JobFits, Uncached, EncodeEach;
    ids := [];
    EachEmpty(model);
    assert texts[..0] == [];
    for i := 0 to |texts|
      invariant ids == EncodeEach(model, texts[..i])
    {
      DoneIds(ByteJob(model, texts[i], omega), model, tasks[i], rooms[i]);
      EachStep(model, texts, i);
      ids := ids + tasks[i].ids;
    }
    assert texts[..|texts|] == texts;
  }

  lemma PretokensFit(model: ByteModel, omega: nat, texts: seq<seq<Byte>>)
    requires ModelFits(model) && Omega(model.v, omega) && omega > 0
    requires forall i :: 0 <= i < |texts| ==> texts[i] != [] && SpellsBytes(model.v, model.base, texts[i])
    ensures AllFit(model, omega, texts)
  {
    hide Omega, Sound, SpellsBytes, Consistent;
    forall i | 0 <= i < |texts|
      ensures JobFits(ByteJob(model, texts[i], omega), model)
    {
      ByteJobSound(model, texts[i], omega);
    }
  }

  /** Nonempty valid text under a vocabulary that loads is spelled by its byte tokens. */
  lemma TextFits(model: ByteModel, omega: nat, texts: seq<seq<Byte>>)
    requires ModelFits(model) && Omega(model.v, omega) && omega > 0
    requires CoversText(model.v) && model.base == EncoderMap(model.v)
    requires forall i :: 0 <= i < |texts| ==> texts[i] != [] && Utf8.Valid(texts[i])
    ensures AllFit(model, omega, texts)
    ensures forall i :: 0 <= i < |texts| ==> SpellsBytes(model.v, model.base, texts[i])
  {
    hide Omega, SpellsBytes, ModelFits, CoversText, AllFit, Utf8.Valid;
    forall i | 0 <= i < |texts|
      ensures SpellsBytes(model.v, model.base, texts[i])
    {
      TextIsSpelled(model.v, texts[i]);
    }
    PretokensFit(model, omega, texts);
  }

  /** Room an input needs: for every pretoken the bytes its calls can see. */
  function ThreadedCost(texts: seq<seq<Byte>>, omega: nat): nat {
    Sum(TaskRooms(texts, omega * DEFAULT_CHUNK_MULTIPLIER, omega))
  }

  /**
   Encode an input's pretokens on a pool. Whatever slot each call lands on and in whatever
   order the calls run, the ids are the in-order concatenation of the uncached encodings,
   and the pool stays exact for the next input.
   */
  method EncodeThreaded(pool: EncoderPool, model: ByteModel, omega: nat, usizeMax: nat, texts: seq<seq<Byte>>,
                        ghost extra: nat)
    returns (r: Result<seq<Token>, ChunkError>)
    requires ModelFits(model) && Omega(model.v, omega) && omega > 0
    requires forall i :: 0 <= i < |texts| ==> texts[i] != [] && SpellsBytes(model.v, model.base, texts[i])
    requires pool.Ready(model, ThreadedCost(texts, omega) + extra)
    modifies pool.Repr()
    ensures omega * DEFAULT_CHUNK_MULTIPLIER > usizeMax ==> r == Err(ChunkSizeOverflow) && unchanged(pool.Repr())
    ensures omega * DEFAULT_CHUNK_MULTIPLIER <= usizeMax ==>
              r == Ok(EncodeEach(model, texts)) && pool.Ready(model, extra)
  {
    hide EncoderPool.Ready, ModelFits, Omega, SpellsBytes, AllFit, AllOk, Sum, EncodeEach, TaskRooms;
    if omega * DEFAULT_CHUNK_MULTIPLIER > usizeMax {
      return Err(ChunkSizeOverflow);
    }
    PretokensFit(model, omega, texts);
    var begun := BeginAll(model, omega, usizeMax, texts);
    ghost var rooms := TaskRooms(texts, omega * DEFAULT_CHUNK_MULTIPLIER, omega);
    var tasks, left := Schedule(pool, model, model.v, omega, texts, begun, rooms, extra);
    var ids := Assemble(model, omega, texts, tasks, left);
    r := Ok(ids);
  }
}

/** The interface of the replicated state to its task queues
    (state/src/interface/task_queue.rs).

    The database a read transaction sees is the value `QueueState`: one
    sequence of queued tasks per queue key, one history list per key (newest
    first), the set of paused queues and the executor each task is assigned
    to. Getters are functions of that snapshot. Setters build a
    `StateTransition`, send it as a proposal and, proposals being applied
    immediately and in order, the snapshot becomes `Apply(old, proposal)`. */
module TaskQueue {
  import opened Wrappers

  type TaskIdentifier = nat
  type TaskQueueKey = nat
  type PeerId = nat
  /** Milliseconds since the epoch, read from the clock by the caller. */
  type Timestamp = nat

  /** A task description; only the queue it belongs to and whether it has a
      historical description (the `Option` of `from_queued_task`) matter here. */
  datatype TaskDescriptor = TaskDescriptor(queueKey: TaskQueueKey, name: string, hasHistoricalDescription: bool)

  datatype QueuedTaskState =
    | Queued
    | Preemptive
    | Running(step: string, committed: bool)
    | Completed
    | Failed
  {
    /** A running task that has already committed its state changes. */
    predicate IsCommitted() { Running? && committed }
  }

  datatype QueuedTask = QueuedTask(id: TaskIdentifier, state: QueuedTaskState, descriptor: TaskDescriptor, createdAt: Timestamp)

  datatype HistoricalTask = HistoricalTask(id: TaskIdentifier, state: QueuedTaskState, createdAt: Timestamp, queueKey: TaskQueueKey)

  datatype StateTransition =
    | AppendTask(task: QueuedTask, executor: PeerId)
    | PopTask(taskId: TaskIdentifier, success: bool)
    | TransitionTask(taskId: TaskIdentifier, state: QueuedTaskState)
    | ClearTaskQueue(queue: TaskQueueKey)
    | PreemptTaskQueues(keys: seq<TaskQueueKey>, task: QueuedTask, executor: PeerId)
    | ResumeTaskQueues(keys: seq<TaskQueueKey>, success: bool)
    | ReassignTasks(fromPeer: PeerId, toPeer: PeerId)

  datatype QueueState = QueueState(
    queues: map<TaskQueueKey, seq<QueuedTask>>,
    history: map<TaskQueueKey, seq<HistoricalTask>>,
    paused: set<TaskQueueKey>,
    executors: map<TaskIdentifier, PeerId>)

  const EmptyState := QueueState(map[], map[], {}, map[])

  /** The state a task is given when it reaches the front of an unpaused queue. */
  const StartedState := Running("Running", false)

  /** The tasks queued under `key`; a key never written reads as empty. */
  function Queue(s: QueueState, key: TaskQueueKey): seq<QueuedTask>
  {
    if key in s.queues then s.queues[key] else []
  }

  /** The history of `key`, newest first. */
  function History(s: QueueState, key: TaskQueueKey): seq<HistoricalTask>
  {
    if key in s.history then s.history[key] else []
  }

  /** `HistoricalTask::from_queued_task`. */
  function FromQueuedTask(key: TaskQueueKey, t: QueuedTask): (r: Option<HistoricalTask>)
    ensures r.Some? <==> t.descriptor.hasHistoricalDescription
    ensures r.Some? ==> r.value.id == t.id && r.value.state == t.state && r.value.queueKey == key
  {
    if t.descriptor.hasHistoricalDescription then Some(HistoricalTask(t.id, t.state, t.createdAt, key)) else None
  }

  // ---------------------------------------------------------------------
  // Getters: functions of the snapshot a read transaction sees
  // ---------------------------------------------------------------------

  function Min(a: nat, b: nat): nat { if a <= b then a else b }

  /** `usize::saturating_sub`. */
  function SaturatingSub(a: nat, b: nat): (r: nat)
    ensures a >= b ==> r + b == a
    ensures a < b ==> r == 0
  {
    if a >= b then a - b else 0
  }

  /** The `filter_map(from_queued_task)` over the live tasks. */
  function FilterHistorical(key: TaskQueueKey, tasks: seq<QueuedTask>): (r: seq<HistoricalTask>)
    ensures |r| <= |tasks|
  {
    if tasks == [] then []
    else
      (match FromQueuedTask(key, tasks[0]) case Some(h) => [h] case None => [])
      + FilterHistorical(key, tasks[1..])
  }

  /** The `filter_map` distributes over concatenation: with its one-element
      case, this keeps the live tasks' order and multiplicity. */
  lemma {:induction false} FilterHistoricalAppend(key: TaskQueueKey, ts: seq<QueuedTask>, us: seq<QueuedTask>)
    ensures FilterHistorical(key, ts + us) == FilterHistorical(key, ts) + FilterHistorical(key, us)
  {
    if ts == [] {
      assert ts + us == us;
    } else {
      var all := ts + us;
      assert all[0] == ts[0] && all[1..] == ts[1..] + us;
      FilterHistoricalAppend(key, ts[1..], us);
    }
  }

  /** `get_truncated_task_history`: the newest `n` historical tasks. */
  function TruncatedHistory(s: QueueState, n: nat, key: TaskQueueKey): (r: seq<HistoricalTask>)
    ensures |r| == Min(n, |History(s, key)|)
    ensures r == History(s, key)[..|r|]
  {
    History(s, key)[..Min(n, |History(s, key)|)]
  }

  /** `get_task_history`: the live tasks of the queue in queue order, then
      the historical tasks newest first, at most `len` of them. Only
      `len - |queue|` historical tasks are fetched (saturating at zero),
      counted against the whole queue even when some live tasks have no
      historical description. */
  function GetTaskHistory(s: QueueState, len: nat, key: TaskQueueKey): (r: seq<HistoricalTask>)
    ensures |r| <= len
    ensures var live := FilterHistorical(key, Queue(s, key));
      forall i | 0 <= i < |r| ::
        if i < |live| then r[i] == live[i]
        else i - |live| < |History(s, key)| && r[i] == History(s, key)[i - |live|]
    ensures var live := FilterHistorical(key, Queue(s, key));
      |r| > |live| ==> |r| - |live| <= SaturatingSub(len, |Queue(s, key)|)
    ensures |FilterHistorical(key, Queue(s, key))| == |Queue(s, key)| && |Queue(s, key)| + |History(s, key)| >= len
      ==> |r| == len
    ensures |r| == Min(len, |FilterHistorical(key, Queue(s, key))| + Min(SaturatingSub(len, |Queue(s, key)|), |History(s, key)|))
  {
    var running := Queue(s, key);
    var remaining := SaturatingSub(len, |running|);
    var historical := TruncatedHistory(s, remaining, key);
    var all := FilterHistorical(key, running) + historical;
    all[..Min(len, |all|)]
  }

  /** `get_current_running_task`: the front task of the queue. */
  function CurrentRunningTask(s: QueueState, key: TaskQueueKey): (r: Option<QueuedTask>)
    ensures r.Some? <==> |Queue(s, key)| > 0
    ensures r.Some? ==> r.value == Queue(s, key)[0] && r.value in Queue(s, key)
  {
    if |Queue(s, key)| > 0 then Some(Queue(s, key)[0]) else None
  }

  /** `current_committed_task`: the id of the front task, and only when that
      task is running and has committed. */
  function CurrentCommittedTask(s: QueueState, key: TaskQueueKey): (r: Option<TaskIdentifier>)
    ensures r.Some? <==> |Queue(s, key)| > 0 && Queue(s, key)[0].state.Running? && Queue(s, key)[0].state.committed
    ensures r.Some? ==> r.value == Queue(s, key)[0].id
  {
    match CurrentRunningTask(s, key)
    case Some(t) => if t.state.IsCommitted() then Some(t.id) else None
    case None => None
  }

  /** `contains_task`: whether some queue holds a task with this id. */
  predicate ContainsTask(s: QueueState, id: TaskIdentifier)
  {
    exists k, i :: k in s.queues && 0 <= i < |s.queues[k]| && s.queues[k][i].id == id
  }

  /** `get_task_queue_len`. */
  function GetTaskQueueLen(s: QueueState, key: TaskQueueKey): nat
  {
    |Queue(s, key)|
  }

  /** An appended task is found by `contains_task`, and only its own queue
      grows, by one. */
  lemma AppendThenContains(s: QueueState, t: QueuedTask, executor: PeerId, key: TaskQueueKey)
    ensures var s' := Apply(s, AppendTask(t, executor));
      ContainsTask(s', t.id)
      && GetTaskQueueLen(s', key) == GetTaskQueueLen(s, key) + (if key == t.descriptor.queueKey then 1 else 0)
  {
    var k := t.descriptor.queueKey;
    var s' := Apply(s, AppendTask(t, executor));
    var q := Queue(s, k) + [t];
    var i := |q| - 1;
    assert s'.queues[k][i].id == t.id;
  }

  // ---------------------------------------------------------------------
  // Applying a proposal
  // ---------------------------------------------------------------------

  /** Starts the front task if it is still waiting. */
  function StartHead(q: seq<QueuedTask>): (r: seq<QueuedTask>)
    ensures |r| == |q|
    ensures |q| > 0 ==> r[1..] == q[1..] && r[0] == if q[0].state == Queued then q[0].(state := StartedState) else q[0]
  {
    if |q| > 0 && q[0].state == Queued then [q[0].(state := StartedState)] + q[1..] else q
  }

  /** A queue after its front task left: the next task starts unless the
      queue is paused. */
  function Advance(s: QueueState, key: TaskQueueKey, rest: seq<QueuedTask>): seq<QueuedTask>
  {
    if key in s.paused then rest else StartHead(rest)
  }

  /** The history of `key` once `t` has finished. */
  function Record(s: QueueState, key: TaskQueueKey, t: QueuedTask, success: bool): seq<HistoricalTask>
  {
    match FromQueuedTask(key, t.(state := if success then Completed else Failed))
    case Some(h) => [h] + History(s, key)
    case None => History(s, key)
  }

  /** Sets the state of every task carrying `id`. */
  function SetState(q: seq<QueuedTask>, id: TaskIdentifier, st: QueuedTaskState): (r: seq<QueuedTask>)
    ensures |r| == |q|
    ensures forall i | 0 <= i < |q| :: r[i] == if q[i].id == id then q[i].(state := st) else q[i]
  {
    if q == [] then []
    else [if q[0].id == id then q[0].(state := st) else q[0]] + SetState(q[1..], id, st)
  }

  /** Removes the front task of every queue in `popped` into that queue's
      history. */
  function PopFronts(s: QueueState, popped: set<TaskQueueKey>, success: bool): QueueState
    requires forall k | k in popped :: k in s.queues && |s.queues[k]| > 0
  {
    s.(queues := map k | k in s.queues ::
                   if k in popped then Advance(s, k, s.queues[k][1..]) else s.queues[k],
       history := map k | k in s.history.Keys + popped ::
                   if k in popped then Record(s, k, s.queues[k][0], success) else s.history[k])
  }

  /** The effect of a committed proposal on the state. */
  function Apply(s: QueueState, p: StateTransition): QueueState
  {
    match p
    case AppendTask(task, executor) =>
      var key := task.descriptor.queueKey;
      var q := Queue(s, key) + [task];
      s.(queues := s.queues[key := if |q| == 1 then Advance(s, key, q) else q],
         executors := s.executors[task.id := executor])
    case PopTask(id, success) =>
      var popped := set k | k in s.queues && |s.queues[k]| > 0 && s.queues[k][0].id == id;
      PopFronts(s, popped, success)
    case TransitionTask(id, st) =>
      s.(queues := map k | k in s.queues :: SetState(s.queues[k], id, st))
    case ClearTaskQueue(key) =>
      s.(queues := s.queues[key := []])
    case PreemptTaskQueues(keys, task, executor) =>
      var ks := set k | k in keys;
      s.(queues := map k | k in s.queues.Keys + ks :: if k in ks then [task] + Queue(s, k) else s.queues[k],
         paused := s.paused + ks,
         executors := s.executors[task.id := executor])
    case ResumeTaskQueues(keys, success) =>
      var resumed := set k | k in keys && k in s.queues && |s.queues[k]| > 0 && s.queues[k][0].state == Preemptive;
      var r := PopFronts(s.(paused := s.paused - set k | k in keys), resumed, success);
      r
    case ReassignTasks(fromPeer, toPeer) =>
      s.(executors := map t | t in s.executors :: if s.executors[t] == fromPeer then toPeer else s.executors[t])
  }

  function ApplyAll(s: QueueState, ps: seq<StateTransition>): QueueState
    decreases |ps|
  {
    if ps == [] then s else ApplyAll(Apply(s, ps[0]), ps[1..])
  }

  // ---------------------------------------------------------------------
  // The interface object
  // ---------------------------------------------------------------------

  /** The node's handle on the replicated state: the current snapshot, the
      proposals sent so far, and the local peer's id. */
  class StateInner {
    var db: QueueState
    var proposals: seq<StateTransition>
    const peerId: PeerId

    constructor (peerId: PeerId)
      ensures this.peerId == peerId && db == EmptyState && proposals == []
    {
      this.peerId := peerId;
      db := EmptyState;
      proposals := [];
    }

    /** Sends a proposal; it is committed and applied before the waiter resolves. */
    method SendProposal(p: StateTransition)
      modifies this
      ensures proposals == old(proposals) + [p]
      ensures db == Apply(old(db), p)
    {
      proposals := proposals + [p];
      db := Apply(db, p);
    }

    /** `append_task`: a new task with the chosen fresh id, in state
        `Queued`, stamped with the current time. */
    method AppendTaskToQueue(task: TaskDescriptor, id: TaskIdentifier, now: Timestamp) returns (taskId: TaskIdentifier)
      modifies this
      ensures taskId == id
      ensures proposals == old(proposals) + [StateTransition.AppendTask(QueuedTask(id, Queued, task, now), peerId)]
      ensures db == Apply(old(db), proposals[|proposals| - 1])
    {
      var queued := QueuedTask(id, Queued, task, now);
      SendProposal(StateTransition.AppendTask(queued, peerId));
      taskId := id;
    }

    /** `pop_task`. */
    method PopTaskFromQueue(taskId: TaskIdentifier, success: bool)
      modifies this
      ensures proposals == old(proposals) + [StateTransition.PopTask(taskId, success)]
      ensures db == Apply(old(db), StateTransition.PopTask(taskId, success))
    {
      SendProposal(StateTransition.PopTask(taskId, success));
    }

    /** `transition_task`. */
    method TransitionTaskState(taskId: TaskIdentifier, state: QueuedTaskState)
      modifies this
      ensures proposals == old(proposals) + [StateTransition.TransitionTask(taskId, state)]
      ensures db == Apply(old(db), StateTransition.TransitionTask(taskId, state))
    {
      SendProposal(StateTransition.TransitionTask(taskId, state));
    }

    /** `clear_task_queue`. */
    method ClearQueue(key: TaskQueueKey)
      modifies this
      ensures proposals == old(proposals) + [StateTransition.ClearTaskQueue(key)]
      ensures db == Apply(old(db), StateTransition.ClearTaskQueue(key))
    {
      SendProposal(StateTransition.ClearTaskQueue(key));
    }

    /** `pause_multiple_task_queues`: the given task, in state `Preemptive`,
        goes to the front of every listed queue. */
    method PauseMultipleTaskQueues(keys: seq<TaskQueueKey>, taskId: TaskIdentifier, task: TaskDescriptor, now: Timestamp)
      modifies this
      ensures proposals == old(proposals)
        + [StateTransition.PreemptTaskQueues(keys, QueuedTask(taskId, Preemptive, task, now), peerId)]
      ensures db == Apply(old(db), proposals[|proposals| - 1])
    {
      var preemptive := QueuedTask(taskId, Preemptive, task, now);
      SendProposal(StateTransition.PreemptTaskQueues(keys, preemptive, peerId));
    }

    /** `pause_task_queue`: the multi-queue version on a one-key list. */
    method PauseTaskQueue(key: TaskQueueKey, taskId: TaskIdentifier, task: TaskDescriptor, now: Timestamp)
      modifies this
      ensures proposals == old(proposals)
        + [StateTransition.PreemptTaskQueues([key], QueuedTask(taskId, Preemptive, task, now), peerId)]
      ensures db == Apply(old(db), proposals[|proposals| - 1])
    {
      PauseMultipleTaskQueues([key], taskId, task, now);
    }

    /** `resume_multiple_task_queues`. */
    method ResumeMultipleTaskQueues(keys: seq<TaskQueueKey>, success: bool)
      modifies this
      ensures proposals == old(proposals) + [StateTransition.ResumeTaskQueues(keys, success)]
      ensures db == Apply(old(db), StateTransition.ResumeTaskQueues(keys, success))
    {
      SendProposal(StateTransition.ResumeTaskQueues(keys, success));
    }

    /** `resume_task_queue`: the multi-queue version on a one-key list. */
    method ResumeTaskQueue(key: TaskQueueKey, success: bool)
      modifies this
      ensures proposals == old(proposals) + [StateTransition.ResumeTaskQueues([key], success)]
      ensures db == Apply(old(db), StateTransition.ResumeTaskQueues([key], success))
    {
      ResumeMultipleTaskQueues([key], success);
    }

    /** `reassign_tasks`: from the failed peer to the local peer. */
    method ReassignTasksFrom(failedPeer: PeerId)
      modifies this
      ensures proposals == old(proposals) + [StateTransition.ReassignTasks(failedPeer, peerId)]
      ensures db == Apply(old(db), StateTransition.ReassignTasks(failedPeer, peerId))
    {
      SendProposal(StateTransition.ReassignTasks(failedPeer, peerId));
    }
  }

  // ---------------------------------------------------------------------
  // Behaviour the interface's tests rely on
  // ---------------------------------------------------------------------

  /** Appending to an empty, unpaused queue gives a queue of one task, and
      that task has already started; it is then found by
      `contains_task`. */
  lemma AppendToEmptyStarts(s: QueueState, t: QueuedTask, executor: PeerId)
    requires Queue(s, t.descriptor.queueKey) == [] && t.descriptor.queueKey !in s.paused
    requires t.state == Queued
    ensures var s' := Apply(s, AppendTask(t, executor));
      GetTaskQueueLen(s', t.descriptor.queueKey) == 1
      && Queue(s', t.descriptor.queueKey)[0].id == t.id
      && Queue(s', t.descriptor.queueKey)[0].state.Running?
      && ContainsTask(s', t.id)
  {
    var s' := Apply(s, AppendTask(t, executor));
    var key := t.descriptor.queueKey;
    assert s'.queues[key][0].id == t.id;
  }

  /** Appending leaves every other queue as it was. */
  lemma AppendTouchesOneQueue(s: QueueState, t: QueuedTask, executor: PeerId, other: TaskQueueKey)
    requires other != t.descriptor.queueKey
    ensures Queue(Apply(s, AppendTask(t, executor)), other) == Queue(s, other)
    ensures History(Apply(s, AppendTask(t, executor)), other) == History(s, other)
  {
  }

  /** Popping the only task of a queue empties the queue and records the
      task in the history with its outcome. */
  lemma PopOnlyTaskEmpties(s: QueueState, key: TaskQueueKey, t: QueuedTask, success: bool)
    requires Queue(s, key) == [t] && t.descriptor.hasHistoricalDescription
    ensures var s' := Apply(s, PopTask(t.id, success));
      GetTaskQueueLen(s', key) == 0
      && History(s', key) == [HistoricalTask(t.id, if success then Completed else Failed, t.createdAt, key)] + History(s, key)
  {
    var popped := set k | k in s.queues && |s.queues[k]| > 0 && s.queues[k][0].id == t.id;
    assert key in popped;
  }

  /** Transitioning the front task to `Running { committed }` makes
      `current_committed_task` report it exactly when `committed` holds. */
  lemma TransitionThenCommitted(s: QueueState, key: TaskQueueKey, step: string, committed: bool)
    requires |Queue(s, key)| > 0
    ensures var id := Queue(s, key)[0].id;
      var s' := Apply(s, TransitionTask(id, Running(step, committed)));
      Queue(s', key)[0].state == Running(step, committed)
      && (CurrentCommittedTask(s', key) == if committed then Some(id) else None)
  {
    var id := Queue(s, key)[0].id;
    var s' := Apply(s, TransitionTask(id, Running(step, committed)));
    assert s'.queues[key] == SetState(s.queues[key], id, Running(step, committed));
  }

  // --- the history scenario: N append/pop pairs, then M appends ---

  function PairTransitions(ids: seq<TaskIdentifier>, d: TaskDescriptor, now: Timestamp, executor: PeerId): (r: seq<StateTransition>)
    ensures |r| == 2 * |ids|
  {
    if ids == [] then []
    else [AppendTask(QueuedTask(ids[0], Queued, d, now), executor), PopTask(ids[0], true)]
         + PairTransitions(ids[1..], d, now, executor)
  }

  function AppendTransitions(ids: seq<TaskIdentifier>, d: TaskDescriptor, now: Timestamp, executor: PeerId): (r: seq<StateTransition>)
    ensures |r| == |ids|
  {
    if ids == [] then [] else [AppendTask(QueuedTask(ids[0], Queued, d, now), executor)] + AppendTransitions(ids[1..], d, now, executor)
  }

  lemma {:induction false} ApplyAllConcat(s: QueueState, a: seq<StateTransition>, b: seq<StateTransition>)
    ensures ApplyAll(s, a + b) == ApplyAll(ApplyAll(s, a), b)
    decreases |a|
  {
    if a == [] {
      assert a + b == b;
    } else {
      assert (a + b)[0] == a[0];
      assert (a + b)[1..] == a[1..] + b;
      ApplyAllConcat(Apply(s, a[0]), a[1..], b);
    }
  }

  lemma TwoSteps(s: QueueState, p: StateTransition, q: StateTransition)
    ensures ApplyAll(s, [p, q]) == Apply(Apply(s, p), q)
  {
    assert [p, q][1..] == [q];
    assert [q][1..] == [];
    assert ApplyAll(s, [p, q]) == ApplyAll(Apply(s, p), [q]);
    assert ApplyAll(Apply(s, p), [q]) == ApplyAll(Apply(Apply(s, p), q), []);
  }

  /** Every append/pop pair on an empty queue leaves it empty and pushes one
      `Completed` task on the history. */
  lemma {:induction false} PairsLeaveQueueEmpty(s: QueueState, ids: seq<TaskIdentifier>, d: TaskDescriptor, now: Timestamp, executor: PeerId)
    requires Queue(s, d.queueKey) == [] && d.queueKey !in s.paused && d.hasHistoricalDescription
    ensures var s' := ApplyAll(s, PairTransitions(ids, d, now, executor));
      Queue(s', d.queueKey) == [] && d.queueKey !in s'.paused
      && |History(s', d.queueKey)| == |ids| + |History(s, d.queueKey)|
      && (forall i | 0 <= i < |ids| :: History(s', d.queueKey)[i].state == Completed)
    decreases |ids|
  {
    if ids != [] {
      var key := d.queueKey;
      var s2 := ApplyAll(s, OnePairTransitions(ids[0], d, now, executor));
      OnePair(s, ids[0], d, now, executor);
      PairsUnfold(s, ids, d, now, executor);
      PairsLeaveQueueEmpty(s2, ids[1..], d, now, executor);
      HistoryKeepsSuffix(s2, ids[1..], d, now, executor);
      var h := History(ApplyAll(s2, PairTransitions(ids[1..], d, now, executor)), key);
      forall i | 0 <= i < |ids| ensures h[i].state == Completed {
        if i == |ids| - 1 {
          assert h[i] == h[|ids| - 1..][0];
        }
      }
    }
  }

  /** The pairs only ever push onto the history: what was there stays, at
      the end. */
  lemma {:induction false} HistoryKeepsSuffix(s: QueueState, ids: seq<TaskIdentifier>, d: TaskDescriptor, now: Timestamp, executor: PeerId)
    requires Queue(s, d.queueKey) == [] && d.queueKey !in s.paused && d.hasHistoricalDescription
    ensures var h := History(ApplyAll(s, PairTransitions(ids, d, now, executor)), d.queueKey);
      |h| == |ids| + |History(s, d.queueKey)| && h[|ids|..] == History(s, d.queueKey)
    decreases |ids|
  {
    if ids != [] {
      var key := d.queueKey;
      var s2 := ApplyAll(s, OnePairTransitions(ids[0], d, now, executor));
      OnePair(s, ids[0], d, now, executor);
      PairsUnfold(s, ids, d, now, executor);
      HistoryKeepsSuffix(s2, ids[1..], d, now, executor);
      var h := History(ApplyAll(s2, PairTransitions(ids[1..], d, now, executor)), key);
      assert h[|ids|..] == h[|ids| - 1..][1..];
    }
  }

  /** One append/pop pair. */
  function OnePairTransitions(id: TaskIdentifier, d: TaskDescriptor, now: Timestamp, executor: PeerId): seq<StateTransition>
  {
    [AppendTask(QueuedTask(id, Queued, d, now), executor), PopTask(id, true)]
  }

  /** The pairs are the first pair, then the others. */
  lemma PairsUnfold(s: QueueState, ids: seq<TaskIdentifier>, d: TaskDescriptor, now: Timestamp, executor: PeerId)
    requires ids != []
    ensures ApplyAll(s, PairTransitions(ids, d, now, executor))
         == ApplyAll(ApplyAll(s, OnePairTransitions(ids[0], d, now, executor)), PairTransitions(ids[1..], d, now, executor))
  {
    ApplyAllConcat(s, OnePairTransitions(ids[0], d, now, executor), PairTransitions(ids[1..], d, now, executor));
  }

  /** One pair on an empty queue: the task starts, completes, and is the
      newest entry of the history; the queue is empty again. */
  lemma OnePair(s: QueueState, id: TaskIdentifier, d: TaskDescriptor, now: Timestamp, executor: PeerId)
    requires Queue(s, d.queueKey) == [] && d.queueKey !in s.paused && d.hasHistoricalDescription
    ensures var s2 := ApplyAll(s, OnePairTransitions(id, d, now, executor));
      Queue(s2, d.queueKey) == [] && d.queueKey !in s2.paused
      && History(s2, d.queueKey) == [HistoricalTask(id, Completed, now, d.queueKey)] + History(s, d.queueKey)
  {
    var key := d.queueKey;
    var t := QueuedTask(id, Queued, d, now);
    var s1 := Apply(s, AppendTask(t, executor));
    FirstAppendRuns(s, t, executor);
    PopOnlyTaskEmpties(s1, key, t.(state := StartedState), true);
    TwoSteps(s, AppendTask(t, executor), PopTask(id, true));
  }

  /** Appending to a queue that is already running adds waiting tasks at the
      back and leaves the history alone. */
  lemma {:induction false} AppendsToBusyQueue(s: QueueState, ids: seq<TaskIdentifier>, d: TaskDescriptor, now: Timestamp, executor: PeerId)
    requires |Queue(s, d.queueKey)| > 0
    ensures var s' := ApplyAll(s, AppendTransitions(ids, d, now, executor));
      |Queue(s', d.queueKey)| == |Queue(s, d.queueKey)| + |ids|
      && Queue(s', d.queueKey)[..|Queue(s, d.queueKey)|] == Queue(s, d.queueKey)
      && (forall i | |Queue(s, d.queueKey)| <= i < |Queue(s', d.queueKey)| ::
            Queue(s', d.queueKey)[i] == QueuedTask(ids[i - |Queue(s, d.queueKey)|], Queued, d, now))
      && History(s', d.queueKey) == History(s, d.queueKey)
    decreases |ids|
  {
    if ids != [] {
      var key := d.queueKey;
      var t := QueuedTask(ids[0], Queued, d, now);
      var s1 := Apply(s, AppendTask(t, executor));
      assert Queue(s1, key) == Queue(s, key) + [t];
      AppendsToBusyQueue(s1, ids[1..], d, now, executor);
      var s' := ApplyAll(s1, AppendTransitions(ids[1..], d, now, executor));
      var n := |Queue(s, key)|;
      assert Queue(s', key)[..n] == Queue(s1, key)[..n + 1][..n];
    }
  }

  /** `from_queued_task` keeps every task that has a historical description,
      in order and with its state. */
  lemma {:induction false} FilterKeepsDescribed(key: TaskQueueKey, tasks: seq<QueuedTask>)
    requires forall i | 0 <= i < |tasks| :: tasks[i].descriptor.hasHistoricalDescription
    ensures |FilterHistorical(key, tasks)| == |tasks|
    ensures forall i | 0 <= i < |tasks| :: FilterHistorical(key, tasks)[i].state == tasks[i].state
  {
    if tasks != [] {
      FilterKeepsDescribed(key, tasks[1..]);
    }
  }

  /** The scenario's transitions, grouped as the pairs, the first append
      and the remaining appends. */
  lemma ScenarioSteps(s: QueueState, pairIds: seq<TaskIdentifier>, appendIds: seq<TaskIdentifier>,
                      d: TaskDescriptor, now: Timestamp, executor: PeerId)
    requires 1 <= |appendIds|
    ensures ApplyAll(s, PairTransitions(pairIds, d, now, executor) + AppendTransitions(appendIds, d, now, executor))
         == ApplyAll(Apply(ApplyAll(s, PairTransitions(pairIds, d, now, executor)),
                           AppendTask(QueuedTask(appendIds[0], Queued, d, now), executor)),
                     AppendTransitions(appendIds[1..], d, now, executor))
  {
    var pairs := PairTransitions(pairIds, d, now, executor);
    var appends := AppendTransitions(appendIds, d, now, executor);
    ApplyAllConcat(s, pairs, appends);
    assert appends[0] == AppendTask(QueuedTask(appendIds[0], Queued, d, now), executor);
    assert appends[1..] == AppendTransitions(appendIds[1..], d, now, executor);
  }

  /** The state N append/pop pairs and then M appends (M >= 1) leave on an
      empty queue: the first appended task runs, the others wait, and the
      history holds the N completed tasks. */
  lemma ScenarioState(s: QueueState, pairIds: seq<TaskIdentifier>, appendIds: seq<TaskIdentifier>,
                      d: TaskDescriptor, now: Timestamp, executor: PeerId)
    requires Queue(s, d.queueKey) == [] && d.queueKey !in s.paused && d.hasHistoricalDescription
    requires 1 <= |appendIds|
    ensures var s' := ApplyAll(s, PairTransitions(pairIds, d, now, executor) + AppendTransitions(appendIds, d, now, executor));
      var q := Queue(s', d.queueKey);
      && |q| == |appendIds|
      && q[0].state.Running?
      && (forall i | 1 <= i < |q| :: q[i].state == Queued)
      && (forall i | 0 <= i < |q| :: q[i].descriptor.hasHistoricalDescription)
      && |History(s', d.queueKey)| >= |pairIds|
      && (forall i | 0 <= i < |pairIds| :: History(s', d.queueKey)[i].state == Completed)
  {
    var key := d.queueKey;
    ScenarioSteps(s, pairIds, appendIds, d, now, executor);
    var s1 := ApplyAll(s, PairTransitions(pairIds, d, now, executor));
    PairsLeaveQueueEmpty(s, pairIds, d, now, executor);
    var t := QueuedTask(appendIds[0], Queued, d, now);
    FirstAppendRuns(s1, t, executor);
    RunningThenWaiting(Apply(s1, AppendTask(t, executor)), appendIds[1..], d, now, executor);
  }

  /** Appending to an empty, unpaused queue starts the task at once and
      leaves the history alone. */
  lemma FirstAppendRuns(s: QueueState, t: QueuedTask, executor: PeerId)
    requires Queue(s, t.descriptor.queueKey) == [] && t.descriptor.queueKey !in s.paused && t.state == Queued
    ensures Queue(Apply(s, AppendTask(t, executor)), t.descriptor.queueKey) == [t.(state := StartedState)]
    ensures History(Apply(s, AppendTask(t, executor)), t.descriptor.queueKey) == History(s, t.descriptor.queueKey)
  {
  }

  /** Appends behind a single running task: it keeps running and the
      appended tasks wait behind it. */
  lemma RunningThenWaiting(s: QueueState, ids: seq<TaskIdentifier>, d: TaskDescriptor, now: Timestamp, executor: PeerId)
    requires |Queue(s, d.queueKey)| == 1 && Queue(s, d.queueKey)[0].state.Running? && Queue(s, d.queueKey)[0].descriptor == d
    ensures var s' := ApplyAll(s, AppendTransitions(ids, d, now, executor));
      var q := Queue(s', d.queueKey);
      && |q| == 1 + |ids|
      && q[0].state.Running?
      && (forall i | 1 <= i < |q| :: q[i].state == Queued && q[i].descriptor == d)
      && q[0].descriptor == d
      && History(s', d.queueKey) == History(s, d.queueKey)
  {
    AppendsToBusyQueue(s, ids, d, now, executor);
    AppendedWait(s, ids, d, now, executor);
    var q := Queue(ApplyAll(s, AppendTransitions(ids, d, now, executor)), d.queueKey);
    assert q[0] == q[..1][0];
  }

  /** The tasks appended to a running queue all wait, under the appended
      descriptor. */
  lemma AppendedWait(s: QueueState, ids: seq<TaskIdentifier>, d: TaskDescriptor, now: Timestamp, executor: PeerId)
    requires |Queue(s, d.queueKey)| > 0
    ensures var q := Queue(ApplyAll(s, AppendTransitions(ids, d, now, executor)), d.queueKey);
      forall i | |Queue(s, d.queueKey)| <= i < |q| :: q[i].state == Queued && q[i].descriptor == d
  {
    AppendsToBusyQueue(s, ids, d, now, executor);
  }

  /** After N append/pop pairs and then M appends (1 <= M <= N) on an empty
      queue, the N-long history shows the running task, then the M-1 waiting
      tasks, then completed tasks. */
  lemma TaskHistoryScenario(s: QueueState, pairIds: seq<TaskIdentifier>, appendIds: seq<TaskIdentifier>,
                            d: TaskDescriptor, now: Timestamp, executor: PeerId)
    requires Queue(s, d.queueKey) == [] && d.queueKey !in s.paused && d.hasHistoricalDescription
    requires 1 <= |appendIds| <= |pairIds|
    ensures var s' := ApplyAll(s, PairTransitions(pairIds, d, now, executor) + AppendTransitions(appendIds, d, now, executor));
      var h := GetTaskHistory(s', |pairIds|, d.queueKey);
      |h| == |pairIds|
      && h[0].state.Running?
      && (forall i | 1 <= i < |appendIds| :: h[i].state == Queued)
      && (forall i | |appendIds| <= i < |h| :: h[i].state == Completed)
  {
    var key := d.queueKey;
    var s' := ApplyAll(s, PairTransitions(pairIds, d, now, executor) + AppendTransitions(appendIds, d, now, executor));
    ScenarioState(s, pairIds, appendIds, d, now, executor);
    var q := Queue(s', key);
    FilterKeepsDescribed(key, q);
    var h := GetTaskHistory(s', |pairIds|, key);
    forall i | 0 <= i < |h| ensures if i == 0 then h[i].state.Running? else if i < |appendIds| then h[i].state == Queued else h[i].state == Completed {
      if i >= |appendIds| {
        assert i - |appendIds| < |pairIds|;
      }
    }
  }
}

/** The background persistence writer (runner/persist_writer.c) on its worker
    (runner/engine_worker.c), as producer and worker steps that interleave freely. The write
    callback is atomic: it replaces the file or leaves it alone. */
module PersistWriter {

  type Snapshot = seq<int>

  /** What a poll returns to; `flushing` says whether the submit runs inside a flush. */
  datatype After =
    | PollOnly                                                    // genesis_persist_poll itself
    | WaitThen                                                    // genesis_persist_wait
    | SubmitFirst(data: Snapshot, force: bool, flushing: bool)    // submit's opening poll
    | SubmitLast(flushing: bool)                                  // submit's closing poll
    | FlushFirst(data: Snapshot)                                  // flush's opening poll
    | FlushLast                                                   // flush's closing poll

  datatype Call = CallPoll | CallWait | CallSubmit | CallFlush

  datatype ProducerPc =
    | Idle
    | Join(next: After)                                           // genesis_worker_join, then poll
    | Poll(next: After)
    | Submitting(data: Snapshot, force: bool, flushing: bool)     // submit, opening poll healthy
    | Starting(flushing: bool)                                    // before genesis_worker_start
    | Returned(call: Call, result: int)

  datatype WorkerPc = Waiting | InJob | Storing(ok: bool) | Retiring

  datatype State = State(
    hasWorker: bool,                    // whether genesis_worker_create succeeds
    committed: Snapshot, pending: Snapshot, inflight: bool, jobOk: bool, failed: bool,
    task: bool, disk: Snapshot,
    pc: ProducerPc, wpc: WorkerPc,
    // history, read by no step:
    initial: Snapshot,
    accepted: seq<Snapshot>,            // snapshots handed to the worker, in order
    reported: seq<Snapshot>,            // completions reported on the producer, in order
    latest: Snapshot)                   // argument of the last flush

  datatype Action =
    | BeginPoll | BeginWait | BeginSubmit(data: Snapshot, force: bool) | BeginFlush(latest: Snapshot)
    | Joined | PollNow | Decide | Start | StartInline(ok: bool) | Return
    | Take | RunJob(ok: bool) | StoreResult | Retire

  function Init(initial: Snapshot, hasWorker: bool): State
  {
    State(hasWorker, initial, initial, false, false, false, false, initial, Idle, Waiting, initial, [], [], initial)
  }

  predicate Enabled(s: State, a: Action)
  {
    match a
    case BeginPoll => s.pc.Idle?
    case BeginWait => s.pc.Idle?
    case BeginSubmit(_, _) => s.pc.Idle?
    case BeginFlush(_) => s.pc.Idle?
    case Joined => s.pc.Join? && !s.task
    case PollNow => s.pc.Poll?
    case Decide => s.pc.Submitting?
    case Start => s.pc.Starting? && s.hasWorker && !s.task
    case StartInline(_) => s.pc.Starting? && !s.hasWorker
    case Return => s.pc.Returned?
    case Take => s.wpc.Waiting? && s.task
    case RunJob(_) => s.wpc.InJob?
    case StoreResult => s.wpc.Storing?
    case Retire => s.wpc.Retiring?
  }

  /** The bookkeeping of genesis_persist_poll: nothing unless a job has finished. */
  function Collect(s: State): State
  {
    if s.inflight && !s.task then
      if s.jobOk then s.(inflight := false, committed := s.pending, reported := s.reported + [s.pending])
      else s.(inflight := false, failed := true)
    else s
  }

  /** Where the producer goes with the poll's answer. */
  function AfterPoll(next: After, ok: bool): ProducerPc
  {
    match next
    case PollOnly => Returned(CallPoll, if ok then 1 else 0)
    case WaitThen => Returned(CallWait, if ok then 1 else 0)
    case SubmitFirst(data, force, flushing) =>
      if ok then Submitting(data, force, flushing) else SubmitReturns(-1, flushing)
    case SubmitLast(flushing) => SubmitReturns(if ok then 1 else -1, flushing)
    case FlushFirst(data) => if ok then Poll(SubmitFirst(data, false, true)) else Returned(CallFlush, 0)
    case FlushLast => Returned(CallFlush, if ok then 1 else 0)
  }

  function SubmitReturns(result: int, flushing: bool): ProducerPc
  {
    if !flushing then Returned(CallSubmit, result)
    else if result < 0 then Returned(CallFlush, 0)
    else Join(FlushLast)
  }

  function Submit(s: State): State
    requires s.pc.Submitting?
  {
    if s.inflight then s.(pc := SubmitReturns(0, s.pc.flushing))
    else if !s.pc.force && s.committed == s.pc.data then s.(pc := SubmitReturns(1, s.pc.flushing))
    else s.(pending := s.pc.data, jobOk := false, inflight := true, pc := Starting(s.pc.flushing))
  }

  function Apply(s: State, a: Action): State
    requires Enabled(s, a)
  {
    match a
    case BeginPoll => s.(pc := Poll(PollOnly))
    case BeginWait => s.(pc := Join(WaitThen))
    case BeginSubmit(data, force) => s.(pc := Poll(SubmitFirst(data, force, false)))
    case BeginFlush(latest) => s.(pc := Join(FlushFirst(latest)), latest := latest)
    case Joined => s.(pc := Poll(s.pc.next))
    case PollNow => var c := Collect(s); c.(pc := AfterPoll(s.pc.next, !c.failed))
    case Decide => Submit(s)
    case Start => s.(task := true, accepted := s.accepted + [s.pending], pc := Poll(SubmitLast(s.pc.flushing)))
    case StartInline(ok) =>
      s.(disk := if ok then s.pending else s.disk, jobOk := ok, accepted := s.accepted + [s.pending],
         pc := Poll(SubmitLast(s.pc.flushing)))
    case Return => s.(pc := Idle)
    case Take => s.(wpc := InJob)
    case RunJob(ok) => s.(disk := if ok then s.pending else s.disk, wpc := Storing(ok))
    case StoreResult => s.(jobOk := s.wpc.ok, wpc := Retiring)
    case Retire => s.(task := false, wpc := Waiting)
  }

  // ---- the invariant -----------------------------------------------------------------

  predicate Ownership(s: State)
  {
    && (!s.wpc.Waiting? ==> s.task)
    && (s.task ==> s.hasWorker && s.inflight && !s.pc.Starting?)
    && (s.pc.Starting? ==> s.inflight)
    && (s.failed ==> !s.inflight && !s.pc.Submitting? && !s.pc.Starting?)
  }

  /** Whether the write of the snapshot in flight has been done. */
  predicate Written(s: State)
  {
    if s.pc.Starting? || s.wpc.InJob? || (s.task && s.wpc.Waiting?) then false
    else if s.wpc.Storing? then s.wpc.ok
    else s.jobOk
  }

  predicate DiskInv(s: State)
  {
    s.disk == if s.inflight && Written(s) then s.pending else s.committed
  }

  /** The snapshot handed over but not reported: in flight, or lost to a failed write. */
  predicate Outstanding(s: State) { (s.inflight && !s.pc.Starting?) || s.failed }

  predicate HistoryInv(s: State)
  {
    && s.accepted == s.reported + (if Outstanding(s) then [s.pending] else [])
    && s.committed == (if s.reported == [] then s.initial else s.reported[|s.reported| - 1])
  }

  /** Inside a flush, after its opening join and poll, only the snapshot being flushed is about. */
  predicate Flushed(s: State)
  {
    if s.inflight then s.pending == s.latest else s.committed == s.latest || s.failed
  }

  predicate FlushAt(s: State, next: After)
  {
    match next
    case FlushFirst(data) => data == s.latest
    case SubmitFirst(data, force, true) => data == s.latest && !force && !s.inflight
    case SubmitLast(true) => Flushed(s)
    case FlushLast => Flushed(s)
    case _ => true
  }

  predicate FlushInv(s: State)
  {
    match s.pc
    case Join(next) => FlushAt(s, next)
    case Poll(next) => FlushAt(s, next) && (next.FlushFirst? || next.FlushLast? ==> !s.task)
    case Submitting(data, force, true) => data == s.latest && !force && !s.inflight
    case Starting(true) => s.pending == s.latest
    case Returned(CallFlush, 1) => !s.failed && !s.inflight && s.committed == s.latest
    case _ => true
  }

  predicate Inv(s: State) { Ownership(s) && DiskInv(s) && HistoryInv(s) && FlushInv(s) }

  lemma ControlKeeps(s: State, a: Action)
    requires Inv(s) && Enabled(s, a)
    ensures Ownership(Apply(s, a)) && DiskInv(Apply(s, a))
  {
  }

  lemma HistoryKeeps(s: State, a: Action)
    requires Inv(s) && Enabled(s, a)
    ensures HistoryInv(Apply(s, a))
  {
  }

  lemma FlushKeeps(s: State, a: Action)
    requires Inv(s) && Enabled(s, a)
    ensures FlushInv(Apply(s, a))
  {
  }

  // ---- all runs ----------------------------------------------------------------------

  ghost predicate Next(s: State, t: State) { exists a :: Enabled(s, a) && t == Apply(s, a) }

  ghost predicate StepAt(ss: seq<State>, i: nat) { i + 1 < |ss| && Next(ss[i], ss[i + 1]) }

  /** A run that starts with the file holding the initial snapshot. */
  ghost predicate Behaviour(initial: Snapshot, hasWorker: bool, ss: seq<State>)
  {
    && |ss| > 0 && ss[0] == Init(initial, hasWorker)
    && forall i: nat :: i + 1 < |ss| ==> StepAt(ss, i)
  }

  lemma {:induction false} AlwaysInv(initial: Snapshot, hasWorker: bool, ss: seq<State>, i: nat)
    requires Behaviour(initial, hasWorker, ss) && i < |ss|
    ensures Inv(ss[i])
  {
    if i > 0 {
      AlwaysInv(initial, hasWorker, ss, i - 1);
      assert StepAt(ss, i - 1);
      var a :| Enabled(ss[i - 1], a) && ss[i] == Apply(ss[i - 1], a);
      ControlKeeps(ss[i - 1], a);
      HistoryKeeps(ss[i - 1], a);
      FlushKeeps(ss[i - 1], a);
    }
  }

  /** In every run the file equals `committed` when nothing is in flight and is `committed` or
      `pending` otherwise; completions are reported once each, in submission order, and at most the
      last accepted snapshot is unreported. */
  lemma {:induction false} DiskIsCommittedOrPending(initial: Snapshot, hasWorker: bool, ss: seq<State>, i: nat)
    requires Behaviour(initial, hasWorker, ss) && i < |ss|
    ensures var s := ss[i];
            && (!s.inflight ==> s.disk == s.committed)
            && (s.disk == s.committed || s.disk == s.pending)
            && s.reported <= s.accepted && |s.accepted| <= |s.reported| + 1
            && s.committed == (if s.reported == [] then s.initial else s.reported[|s.reported| - 1])
  {
    AlwaysInv(initial, hasWorker, ss, i);
  }

  /** A flush that returns 1 has put its argument on disk. */
  lemma {:induction false} FlushReachesDisk(initial: Snapshot, hasWorker: bool, ss: seq<State>, i: nat)
    requires Behaviour(initial, hasWorker, ss) && i < |ss| && ss[i].pc == Returned(CallFlush, 1)
    ensures ss[i].disk == ss[i].latest
  {
    AlwaysInv(initial, hasWorker, ss, i);
  }

  lemma FailedStep(s: State, a: Action)
    requires Inv(s) && Enabled(s, a) && s.failed
    ensures var t := Apply(s, a); t.failed && t.disk == s.disk && t.accepted == s.accepted
  {
  }

  lemma {:induction false} FailedNext(s: State, t: State)
    requires Inv(s) && s.failed && Next(s, t)
    ensures t.failed && t.disk == s.disk && t.accepted == s.accepted
  {
    var a :| Enabled(s, a) && t == Apply(s, a);
    FailedStep(s, a);
  }

  /** Failure is sticky, and after it the file never changes again. */
  lemma {:induction false} FailureIsFinal(initial: Snapshot, hasWorker: bool, ss: seq<State>, i: nat, j: nat)
    requires Behaviour(initial, hasWorker, ss) && i <= j < |ss| && ss[i].failed
    ensures ss[j].failed && ss[j].disk == ss[i].disk && ss[j].accepted == ss[i].accepted
  {
    if i < j {
      FailureIsFinal(initial, hasWorker, ss, i, j - 1);
      AlwaysInv(initial, hasWorker, ss, j - 1);
      assert StepAt(ss, j - 1);
      FailedNext(ss[j - 1], ss[j]);
    }
  }

  // ---- calls, by the actions of a run ------------------------------------------------

  ghost predicate TakenAt(ss: seq<State>, acts: seq<Action>, i: nat)
  {
    i < |acts| && i + 1 < |ss| && Enabled(ss[i], acts[i]) && ss[i + 1] == Apply(ss[i], acts[i])
  }

  /** A run with the action of each of its steps. */
  ghost predicate RunBy(initial: Snapshot, hasWorker: bool, ss: seq<State>, acts: seq<Action>)
  {
    && |ss| == |acts| + 1 && ss[0] == Init(initial, hasWorker)
    && forall i: nat :: i < |acts| ==> TakenAt(ss, acts, i)
  }

  lemma {:induction false} RunIsBehaviour(initial: Snapshot, hasWorker: bool, ss: seq<State>, acts: seq<Action>)
    requires RunBy(initial, hasWorker, ss, acts)
    ensures Behaviour(initial, hasWorker, ss)
  {
    forall i: nat | i + 1 < |ss| ensures StepAt(ss, i) {
      assert TakenAt(ss, acts, i);
    }
  }

  /** A call to submit `data` that began with `before` accepted. */
  predicate Submission(s: State, data: Snapshot, force: bool, before: seq<Snapshot>)
  {
    match s.pc
    case Poll(SubmitFirst(d, f, false)) => d == data && f == force && s.accepted == before
    case Submitting(d, f, false) => d == data && f == force && s.accepted == before
    case Starting(false) => s.pending == data && s.accepted == before
    case Poll(SubmitLast(false)) => s.accepted == before + [data]
    case Returned(CallSubmit, r) => SubmitMeans(s, r, data, force, before)
    case _ => false
  }

  /** What the result of a submit says: 1, the snapshot was handed over, or (unless forced) is what is
      committed already; 0, an earlier one is still in flight and nothing was taken; -1, the writer has
      failed. */
  predicate SubmitMeans(s: State, r: int, data: Snapshot, force: bool, before: seq<Snapshot>)
  {
    && (r == 1 || r == 0 || r == -1)
    && (r == 1 ==> !s.failed && (s.accepted == before + [data]
                                 || (!force && s.accepted == before && s.committed == data && !s.inflight)))
    && (r == 0 ==> s.inflight && s.accepted == before)
    && (r == -1 ==> s.failed)
  }

  lemma SubmissionKeeps(s: State, a: Action, data: Snapshot, force: bool, before: seq<Snapshot>)
    requires Ownership(s) && Enabled(s, a) && Submission(s, data, force, before) && !s.pc.Returned?
    ensures Submission(Apply(s, a), data, force, before)
  {
  }

  lemma {:induction false} SubmissionAlong(initial: Snapshot, hasWorker: bool, ss: seq<State>, acts: seq<Action>, i: nat, j: nat, data: Snapshot, force: bool)
    requires RunBy(initial, hasWorker, ss, acts) && i < j < |ss| && acts[i] == BeginSubmit(data, force)
    requires forall k :: i < k < j ==> !ss[k].pc.Returned?
    ensures Submission(ss[j], data, force, ss[i].accepted)
  {
    RunIsBehaviour(initial, hasWorker, ss, acts);
    assert TakenAt(ss, acts, j - 1);
    AlwaysInv(initial, hasWorker, ss, j - 1);
    if j > i + 1 {
      SubmissionAlong(initial, hasWorker, ss, acts, i, j - 1, data, force);
      SubmissionKeeps(ss[j - 1], acts[j - 1], data, force, ss[i].accepted);
    }
  }

  /** Every submit, from its arguments to its result. */
  lemma {:induction false} SubmitAnswered(initial: Snapshot, hasWorker: bool, ss: seq<State>, acts: seq<Action>, i: nat, j: nat, data: Snapshot, force: bool)
    requires RunBy(initial, hasWorker, ss, acts) && i < j < |ss| && acts[i] == BeginSubmit(data, force)
    requires (forall k :: i < k < j ==> !ss[k].pc.Returned?) && ss[j].pc.Returned?
    ensures ss[j].pc.call == CallSubmit && SubmitMeans(ss[j], ss[j].pc.result, data, force, ss[i].accepted)
  {
    SubmissionAlong(initial, hasWorker, ss, acts, i, j, data, force);
  }

  /** What submit decides once its opening poll has found the writer healthy: refuse while a job is in
      flight, answer at once for what is committed already unless forced, start a job otherwise. */
  lemma DecideMeans(s: State)
    requires Enabled(s, Decide)
    ensures var t := Apply(s, Decide);
            && t.accepted == s.accepted && t.committed == s.committed && t.disk == s.disk
            && (t.pc == Starting(s.pc.flushing) <==> !s.inflight && (s.pc.force || s.committed != s.pc.data))
            && (t.pc.Starting? ==> t.pending == s.pc.data && t.inflight)
            && (!t.pc.Starting? ==> t == s.(pc := t.pc))
            && (!s.pc.flushing && !t.pc.Starting? ==> t.pc == Returned(CallSubmit, if s.inflight then 0 else 1))
  {
  }

  /** A flush of `data` is in progress or has returned: the snapshot it works for is its argument. */
  predicate Flushing(s: State, data: Snapshot)
  {
    && s.latest == data
    && match s.pc
       case Join(next) => next.FlushFirst? || next.FlushLast?
       case Poll(next) => next.FlushFirst? || next.FlushLast? || (next.SubmitFirst? && next.flushing) || (next.SubmitLast? && next.flushing)
       case Submitting(_, _, flushing) => flushing
       case Starting(flushing) => flushing
       case Returned(call, r) => call == CallFlush && r == (if s.failed then 0 else 1)
       case Idle => false
  }

  lemma FlushingKeeps(s: State, a: Action, data: Snapshot)
    requires Ownership(s) && Enabled(s, a) && Flushing(s, data) && !s.pc.Returned?
    ensures Flushing(Apply(s, a), data)
  {
  }

  lemma {:induction false} FlushingAlong(initial: Snapshot, hasWorker: bool, ss: seq<State>, acts: seq<Action>, i: nat, j: nat, data: Snapshot)
    requires RunBy(initial, hasWorker, ss, acts) && i < j < |ss| && acts[i] == BeginFlush(data)
    requires forall k :: i < k < j ==> !ss[k].pc.Returned?
    ensures Flushing(ss[j], data)
  {
    RunIsBehaviour(initial, hasWorker, ss, acts);
    assert TakenAt(ss, acts, j - 1);
    AlwaysInv(initial, hasWorker, ss, j - 1);
    if j > i + 1 {
      FlushingAlong(initial, hasWorker, ss, acts, i, j - 1, data);
      FlushingKeeps(ss[j - 1], acts[j - 1], data);
    }
  }

  /** Every flush, from its argument to its result: 1 exactly when the writer has not failed, and then
      the argument is on disk. */
  lemma {:induction false} FlushAnswered(initial: Snapshot, hasWorker: bool, ss: seq<State>, acts: seq<Action>, i: nat, j: nat, data: Snapshot)
    requires RunBy(initial, hasWorker, ss, acts) && i < j < |ss| && acts[i] == BeginFlush(data)
    requires (forall k :: i < k < j ==> !ss[k].pc.Returned?) && ss[j].pc.Returned?
    ensures ss[j].pc == Returned(CallFlush, if ss[j].failed then 0 else 1)
    ensures !ss[j].failed ==> ss[j].disk == data
  {
    FlushingAlong(initial, hasWorker, ss, acts, i, j, data);
    RunIsBehaviour(initial, hasWorker, ss, acts);
    if !ss[j].failed { FlushReachesDisk(initial, hasWorker, ss, j); }
  }

  /** Poll and wait answer 1 exactly while the writer has not failed; after a wait nothing is in flight. */
  predicate Answered(s: State)
  {
    match s.pc
    case Poll(WaitThen) => !s.task
    case Returned(CallPoll, r) => r == if s.failed then 0 else 1
    case Returned(CallWait, r) => !s.inflight && r == if s.failed then 0 else 1
    case _ => true
  }

  lemma AnsweredKeeps(s: State, a: Action)
    requires Ownership(s) && Enabled(s, a) && Answered(s)
    ensures Answered(Apply(s, a))
  {
  }

  lemma {:induction false} PollAndWaitAnswer(initial: Snapshot, hasWorker: bool, ss: seq<State>, acts: seq<Action>, i: nat)
    requires RunBy(initial, hasWorker, ss, acts) && i < |ss|
    ensures Answered(ss[i])
  {
    if i > 0 {
      PollAndWaitAnswer(initial, hasWorker, ss, acts, i - 1);
      RunIsBehaviour(initial, hasWorker, ss, acts);
      AlwaysInv(initial, hasWorker, ss, i - 1);
      assert TakenAt(ss, acts, i - 1);
      AnsweredKeeps(ss[i - 1], acts[i - 1]);
    }
  }

  /** No write callback has reported failure. */
  predicate WriteFails(a: Action) { a == RunJob(false) || a == StartInline(false) }

  predicate Healthy(s: State)
  {
    && !s.failed
    && (s.wpc.Storing? ==> s.wpc.ok) && (s.wpc.Retiring? ==> s.jobOk)
    && (s.inflight && !s.task && !s.pc.Starting? ==> s.jobOk)
  }

  lemma HealthyKeeps(s: State, a: Action)
    requires Ownership(s) && Healthy(s) && Enabled(s, a) && !WriteFails(a)
    ensures Healthy(Apply(s, a))
  {
  }

  /** Without a failed write the writer never fails, so every flush returns 1 with its argument on
      disk. */
  lemma {:induction false} NoFaultNoFailure(initial: Snapshot, hasWorker: bool, ss: seq<State>, acts: seq<Action>, i: nat)
    requires RunBy(initial, hasWorker, ss, acts) && i < |ss|
    requires forall k :: 0 <= k < i ==> !WriteFails(acts[k])
    ensures Healthy(ss[i])
  {
    if i > 0 {
      NoFaultNoFailure(initial, hasWorker, ss, acts, i - 1);
      RunIsBehaviour(initial, hasWorker, ss, acts);
      AlwaysInv(initial, hasWorker, ss, i - 1);
      assert TakenAt(ss, acts, i - 1);
      HealthyKeeps(ss[i - 1], acts[i - 1]);
    }
  }

  /** A step that serves the call in progress: the producer's own, or the worker's when the producer
      waits for it. */
  function Progress(s: State): Action
  {
    match s.pc
    case Idle => BeginPoll
    case Join(_) => if s.task then WorkerProgress(s.wpc) else Joined
    case Poll(_) => PollNow
    case Submitting(_, _, _) => Decide
    case Starting(_) => if s.hasWorker then Start else StartInline(true)
    case Returned(_, _) => Return
  }

  function WorkerProgress(wpc: WorkerPc): Action
  {
    match wpc
    case Waiting => Take
    case InJob => RunJob(true)
    case Storing(_) => StoreResult
    case Retiring => Retire
  }

  lemma {:induction false} NeverDeadlocks(initial: Snapshot, hasWorker: bool, ss: seq<State>, i: nat)
    requires Behaviour(initial, hasWorker, ss) && i < |ss|
    ensures Enabled(ss[i], Progress(ss[i]))
  {
    AlwaysInv(initial, hasWorker, ss, i);
  }
}

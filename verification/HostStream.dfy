/** The double-buffered host stream and its worker (runner/host_stream.c, runner/engine_worker.c)
    as one state machine: producer and worker each have a program counter and every step of either
    may come next. The worker writes its job to the file one byte per step. A buffer is modelled by
    the bytes put into it: `used` is the length of the active one, `pending_size` of the pending
    one. */
module HostStream {

  import opened Bits

  type byte = u8

  /** What publish returns to. */
  datatype Caller = FromWrite(rest: seq<byte>) | FromFlushAsync | FromFlush(destroying: bool)

  datatype Call = CallWrite | CallFlushAsync | CallFlush

  datatype ProducerPc =
    | Idle
    | Copying(rest: seq<byte>)                       // genesis_host_stream_write's loop
    | PublishJoin(flush: bool, caller: Caller)       // publish: before join_job
    | PublishSwap(flush: bool, caller: Caller)       // publish: job joined, buffers free
    | PublishStart(caller: Caller)                   // publish: fields set, before genesis_worker_start
    | FlushJoin(ok: bool, destroying: bool)          // flush: before its own join_job
    | FlushFile(ok: bool, destroying: bool)          // flush: before fflush
    | DestroyJoin(ok: bool)                          // genesis_worker_destroy: before its join
    | DestroyWait(ok: bool)                          // genesis_worker_destroy: SDL_WaitThread
    | Returned(call: Call, ok: bool)
    | Gone(ok: bool)

  datatype WorkerPc =
    | Waiting
    | Writing(at: nat)          // inside fwrite, `at` bytes done
    | JobDone(ok: bool)         // about to store job_ok
    | Retiring                  // about to take the mutex and clear the task
    | Exited

  datatype State = State(
    capacity: nat, hasWorker: bool,
    buffer: seq<seq<byte>>, active: nat, pending: nat, pendingFlush: bool,
    inflight: bool, jobOk: bool, failed: bool, ioFailed: bool,
    task: bool, stop: bool, completed: nat,
    file: seq<byte>,
    pc: ProducerPc, wpc: WorkerPc,
    // history, read by no step:
    accepted: seq<byte>,        // bytes copied into a buffer so far
    requested: seq<byte>,       // bytes handed to write calls so far
    published: nat,             // jobs started
    fault: bool,                // some fwrite or fflush failed, or the error indicator was set
    short: bool)                // some fwrite fell short

  datatype Action =
    | BeginWrite(data: seq<byte>) | BeginFlushAsync | BeginFlush | BeginDestroy
    | Copy | FinishWrite
    | JoinToPublish | Swap | Start | StartInline(wrote: nat, error: bool, flushed: bool)
    | JoinToFlush | FlushFileNow(flushed: bool)
    | StopWorker | WorkerGone | Return
    | Take | WriteByte | WriteFails | WriteEnds(error: bool, flushed: bool) | StoreResult | Retire | Exit

  function Init(capacity: nat, hasWorker: bool): State
  {
    State(capacity, hasWorker, [[], []], 0, 0, false, false, false, false, false,
          false, false, 0, [], Idle, Waiting, [], [], 0, false, false)
  }

  predicate Shaped(s: State)
  {
    && s.capacity > 0 && |s.buffer| == 2 && s.active < 2 && s.pending < 2
    && |s.buffer[s.active]| <= s.capacity
    && (s.wpc.Writing? ==> s.wpc.at <= |s.buffer[s.pending]|)
  }

  function Job(s: State): seq<byte>
    requires Shaped(s)
  {
    s.buffer[s.pending]
  }

  /** The bytes waiting in the active buffer. */
  function Filling(s: State): seq<byte>
    requires Shaped(s)
  {
    s.buffer[s.active]
  }

  predicate Enabled(s: State, a: Action)
    requires Shaped(s)
  {
    match a
    case BeginWrite(_) => s.pc.Idle?
    case BeginFlushAsync => s.pc.Idle?
    case BeginFlush => s.pc.Idle?
    case BeginDestroy => s.pc.Idle?
    case Copy => s.pc.Copying? && s.pc.rest != []
    case FinishWrite => s.pc.Copying? && s.pc.rest == []
    case JoinToPublish => s.pc.PublishJoin? && (s.inflight ==> !s.task)
    case Swap => s.pc.PublishSwap?
    case Start => s.pc.PublishStart? && s.hasWorker && !s.task
    case StartInline(wrote, _, _) => s.pc.PublishStart? && !s.hasWorker && wrote <= |Job(s)|
    case JoinToFlush => s.pc.FlushJoin? && (s.inflight ==> !s.task)
    case FlushFileNow(_) => s.pc.FlushFile?
    case StopWorker => s.pc.DestroyJoin? && !s.task
    case WorkerGone => s.pc.DestroyWait? && (s.hasWorker ==> s.wpc.Exited?)
    case Return => s.pc.Returned?
    case Take => s.hasWorker && s.wpc.Waiting? && s.task && !s.stop
    case WriteByte => s.wpc.Writing? && s.wpc.at < |Job(s)|
    case WriteFails => s.wpc.Writing? && s.wpc.at < |Job(s)|
    case WriteEnds(_, _) => s.wpc.Writing? && s.wpc.at == |Job(s)|
    case StoreResult => s.wpc.JobDone?
    case Retire => s.wpc.Retiring?
    case Exit => s.hasWorker && s.wpc.Waiting? && s.stop
  }

  /** join_job once the worker is idle. */
  function Joined(s: State): State
  {
    if s.inflight then s.(failed := s.failed || !s.jobOk, ioFailed := s.ioFailed || !s.jobOk, inflight := false)
    else s
  }

  /** Where publish goes when it returns `ok`. */
  function PublishReturns(failed: bool, caller: Caller, ok: bool): ProducerPc
  {
    match caller
    case FromWrite(rest) => if ok then Copying(rest) else Returned(CallWrite, false)
    case FromFlushAsync => Returned(CallFlushAsync, ok && !failed)
    case FromFlush(destroying) => FlushJoin(ok, destroying)
  }

  function Min(a: nat, b: nat): nat { if a < b then a else b }

  /** One turn of the write loop: fill the active buffer, publish when it is full. */
  function CopyInto(s: State): State
    requires Shaped(s) && s.pc.Copying?
  {
    var rest := s.pc.rest;
    var n := Min(s.capacity - |Filling(s)|, |rest|);
    var filled := Filling(s) + rest[..n];
    s.(buffer := s.buffer[s.active := filled], accepted := s.accepted + rest[..n],
       pc := if |filled| == s.capacity then PublishJoin(false, FromWrite(rest[n..])) else Copying(rest[n..]))
  }

  function JoinAndPublish(s: State): State
    requires s.pc.PublishJoin?
  {
    var j := Joined(s);
    j.(pc := if j.ioFailed then PublishReturns(j.failed, s.pc.caller, false) else PublishSwap(s.pc.flush, s.pc.caller))
  }

  /** publish with the previous job joined: hand the active buffer over and start filling the
      other one afresh. */
  function SwapBuffers(s: State): State
    requires Shaped(s) && s.pc.PublishSwap?
  {
    if |Filling(s)| == 0 && !s.pc.flush then s.(pc := PublishReturns(s.failed, s.pc.caller, true))
    else HandOver(s)
  }

  function HandOver(s: State): State
    requires Shaped(s) && s.pc.PublishSwap?
  {
    var other := if s.active == 0 then 1 else 0;
    s.(buffer := if other == 0 then [[], s.buffer[1]] else [s.buffer[0], []], pending := s.active, active := other,
       jobOk := false, inflight := true, pendingFlush := s.pc.flush, pc := PublishStart(s.pc.caller))
  }

  function StartJob(s: State): State
    requires s.pc.PublishStart?
  {
    s.(task := true, published := s.published + 1, pc := PublishReturns(s.failed, s.pc.caller, true))
  }

  /** What write_job makes of a write that was complete: `error` is the file's sticky error indicator,
      `flushed` the outcome of the flush if the job asks for one. */
  predicate JobReports(s: State, error: bool, flushed: bool) { !error && (s.pendingFlush ==> flushed) }

  /** genesis_worker_start without a worker thread runs the job in place. */
  function RunInline(s: State, wrote: nat, error: bool, flushed: bool): State
    requires Shaped(s) && s.pc.PublishStart? && wrote <= |Job(s)|
  {
    var ok := wrote == |Job(s)| && JobReports(s, error, flushed);
    s.(file := s.file + Job(s)[..wrote], jobOk := ok,
       published := s.published + 1, completed := s.completed + 1,
       fault := s.fault || !ok, short := s.short || wrote < |Job(s)|,
       pc := PublishReturns(s.failed, s.pc.caller, true))
  }

  function JoinAndFlush(s: State): State
    requires s.pc.FlushJoin?
  {
    var j := Joined(s);
    j.(pc := FlushFile(s.pc.ok && !j.ioFailed, s.pc.destroying))
  }

  function FlushTheFile(s: State, flushed: bool): State
    requires s.pc.FlushFile?
  {
    var ok := s.pc.ok && flushed && !s.failed;
    s.(failed := s.failed || !flushed, fault := s.fault || !flushed,
       pc := if s.pc.destroying then DestroyJoin(ok) else Returned(CallFlush, ok))
  }

  function WriteOneByte(s: State): State
    requires Shaped(s) && s.wpc.Writing? && s.wpc.at < |Job(s)|
  {
    s.(file := s.file + [Job(s)[s.wpc.at]], wpc := Writing(s.wpc.at + 1))
  }

  function Apply(s: State, a: Action): State
    requires Shaped(s) && Enabled(s, a)
  {
    match a
    case BeginWrite(data) =>
      if s.failed then s.(pc := Returned(CallWrite, false))
      else s.(pc := Copying(data), requested := s.requested + data)
    case BeginFlushAsync => s.(pc := PublishJoin(true, FromFlushAsync))
    case BeginFlush => s.(pc := PublishJoin(false, FromFlush(false)))
    case BeginDestroy => s.(pc := PublishJoin(false, FromFlush(true)))
    case Copy => CopyInto(s)
    case FinishWrite => s.(pc := Returned(CallWrite, true))
    case JoinToPublish => JoinAndPublish(s)
    case Swap => SwapBuffers(s)
    case Start => StartJob(s)
    case StartInline(wrote, error, flushed) => RunInline(s, wrote, error, flushed)
    case JoinToFlush => JoinAndFlush(s)
    case FlushFileNow(flushed) => FlushTheFile(s, flushed)
    case StopWorker => s.(stop := true, pc := DestroyWait(s.pc.ok))
    case WorkerGone => s.(pc := Gone(s.pc.ok))
    case Return => s.(pc := Idle)
    case Take => s.(wpc := Writing(0))
    case WriteByte => WriteOneByte(s)
    case WriteFails => s.(wpc := JobDone(false), fault := true, short := true)
    case WriteEnds(error, flushed) =>
      s.(wpc := JobDone(JobReports(s, error, flushed)), fault := s.fault || !JobReports(s, error, flushed))
    case StoreResult => s.(jobOk := s.wpc.ok, wpc := Retiring)
    case Retire => s.(completed := s.completed + 1, task := false, wpc := Waiting)
    case Exit => s.(wpc := Exited)
  }

  // ---- the invariant -----------------------------------------------------------------

  /** The bytes of the published job that are not yet in the file. */
  function InFlight(s: State): seq<byte>
    requires Shaped(s)
  {
    if s.pc.PublishStart? || (s.task && s.wpc.Waiting?) then Job(s)
    else if s.wpc.Writing? then Job(s)[s.wpc.at..]
    else []
  }

  /** Bytes of the current write call that are still to be copied. */
  function Rest(pc: ProducerPc): seq<byte>
  {
    match pc
    case Copying(rest) => rest
    case PublishJoin(_, FromWrite(rest)) => rest
    case PublishSwap(_, FromWrite(rest)) => rest
    case PublishStart(FromWrite(rest)) => rest
    case _ => []
  }

  predicate InJob(wpc: WorkerPc) { wpc.Writing? || wpc.JobDone? || wpc.Retiring? }

  /** Who may touch what: the job fields belong to the worker exactly while it has a task, and the
      buffer it reads is never the one being filled. */
  predicate Ownership(s: State)
    requires Shaped(s)
  {
    && (InJob(s.wpc) ==> s.task)
    && (s.task ==> s.hasWorker && s.inflight && !s.stop && !s.pc.PublishSwap? && !s.pc.PublishStart? && !s.pc.FlushFile?)
    && (s.inflight ==> s.pending != s.active)
    && (s.pc.PublishStart? ==> s.inflight && |s.buffer[s.active]| == 0)
    && (s.pc.PublishSwap? || s.pc.FlushFile? ==> !s.inflight)
    && (!s.hasWorker ==> s.wpc.Waiting?)
    && (s.pc.DestroyJoin? || s.pc.DestroyWait? || s.pc.Gone? ==> !s.inflight)
    && (s.stop ==> s.pc.DestroyWait? || s.pc.Gone?)
    && (s.pc.DestroyWait? ==> s.stop)
    && (s.wpc.Exited? ==> s.stop)
  }

  /** Every byte accepted is in the file, in flight or in the active buffer, in that order. After
      a short write the file stays a prefix of what was accepted and no further job starts. */
  predicate Conserved(s: State)
    requires Shaped(s)
  {
    if !s.short then s.accepted == s.file + InFlight(s) + Filling(s)
    else s.file <= s.accepted && !s.wpc.Writing? && !s.pc.PublishStart? && !(s.task && s.wpc.Waiting?)
         && !s.pc.PublishSwap?
  }

  /** The outcome of the last job on its way to the producer. */
  predicate JobFailed(s: State)
  {
    s.ioFailed || s.wpc == JobDone(false) || (s.wpc.Retiring? && !s.jobOk)
    || (s.inflight && !s.task && !s.pc.PublishStart? && !s.jobOk)
  }

  predicate Faults(s: State)
    requires Shaped(s)
  {
    && (s.short ==> JobFailed(s))
    && (s.short ==> s.fault)
    && (!s.fault ==> !JobFailed(s) && !s.failed && !s.ioFailed)
    && (s.ioFailed ==> s.failed)
    && (s.pc.PublishSwap? || s.pc.PublishStart? ==> !s.ioFailed)
    && (s.pc.FlushJoin? && s.pc.ok ==> !s.ioFailed && |s.buffer[s.active]| == 0)
    && (s.pc.FlushFile? && s.pc.ok ==> !s.ioFailed && |s.buffer[s.active]| == 0)
    && (Reported(s).Some? && Reported(s).value ==> !s.failed && |s.buffer[s.active]| == 0 && !s.inflight && !s.short)
    && (!s.fault ==> Succeeding(s.pc))
  }

  /** The result a finished flush or destroy reports. */
  function Reported(s: State): Option<bool>
  {
    match s.pc
    case Returned(CallFlush, ok) => Some(ok)
    case DestroyJoin(ok) => Some(ok)
    case DestroyWait(ok) => Some(ok)
    case Gone(ok) => Some(ok)
    case _ => None
  }

  /** No call on its way to reporting failure. */
  predicate Succeeding(pc: ProducerPc)
  {
    match pc
    case FlushJoin(ok, _) => ok
    case FlushFile(ok, _) => ok
    case DestroyJoin(ok) => ok
    case DestroyWait(ok) => ok
    case Returned(_, ok) => ok
    case Gone(ok) => ok
    case _ => true
  }

  /** What write calls asked for: a failed stream may have dropped the tail of one write. */
  predicate Requests(s: State)
  {
    && s.accepted + Rest(s.pc) <= s.requested
    && (!s.failed ==> s.accepted + Rest(s.pc) == s.requested)
  }

  predicate Counted(s: State) { s.published == s.completed + (if s.task then 1 else 0) }

  predicate Control(s: State)
  {
    Shaped(s) && Ownership(s) && Faults(s) && Counted(s)
  }

  predicate Inv(s: State)
  {
    Control(s) && Conserved(s) && Requests(s)
  }

  lemma InitInv(capacity: nat, hasWorker: bool)
    requires capacity > 0
    ensures Inv(Init(capacity, hasWorker))
  {
  }

  // ---- bytes -------------------------------------------------------------------------

  lemma {:induction false} CopyBytes(s: State)
    requires Shaped(s) && Ownership(s) && Conserved(s) && Enabled(s, Copy)
    ensures Shaped(CopyInto(s)) && Conserved(CopyInto(s))
  {
    var rest := s.pc.rest;
    var n := Min(s.capacity - |Filling(s)|, |rest|);
    var t := CopyInto(s);
    assert Filling(t) == Filling(s) + rest[..n];
    assert InFlight(t) == InFlight(s);
    if !s.short {
      assert s.file + InFlight(s) + (Filling(s) + rest[..n]) == (s.file + InFlight(s) + Filling(s)) + rest[..n];
    } else {
      assert s.accepted <= s.accepted + rest[..n];
    }
  }

  lemma {:induction false} CopyRequests(s: State)
    requires Shaped(s) && Requests(s) && Enabled(s, Copy)
    ensures Requests(CopyInto(s))
  {
    var rest := s.pc.rest;
    var n := Min(s.capacity - |Filling(s)|, |rest|);
    assert rest[..n] + rest[n..] == rest;
    assert (s.accepted + rest[..n]) + rest[n..] == s.accepted + rest;
  }

  lemma {:induction false} WriteByteBytes(s: State)
    requires Shaped(s) && Ownership(s) && Conserved(s) && Enabled(s, WriteByte)
    ensures Shaped(WriteOneByte(s)) && Conserved(WriteOneByte(s))
  {
    var t, at := WriteOneByte(s), s.wpc.at;
    assert Job(s)[at..] == [Job(s)[at]] + Job(s)[at + 1..];
    assert s.file + ([Job(s)[at]] + Job(s)[at + 1..]) + Filling(s)
        == s.file + [Job(s)[at]] + Job(s)[at + 1..] + Filling(s);
  }

  lemma {:induction false} InlineBytes(s: State, wrote: nat, error: bool, flushed: bool)
    requires Shaped(s) && Ownership(s) && Conserved(s) && Enabled(s, StartInline(wrote, error, flushed))
    ensures Shaped(RunInline(s, wrote, error, flushed)) && Conserved(RunInline(s, wrote, error, flushed))
  {
    SplitPrefix(s.file, Job(s), wrote, Filling(s));
  }

  lemma {:induction false} SplitPrefix(file: seq<byte>, job: seq<byte>, n: nat, more: seq<byte>)
    requires n <= |job|
    ensures file + job[..n] <= file + job + more
    ensures n == |job| ==> file + job[..n] + [] + more == file + job + more
  {
    assert job == job[..n] + job[n..];
    assert file + job + more == (file + job[..n]) + (job[n..] + more);
  }

  lemma HandOverFacts(s: State)
    requires Shaped(s) && s.pc.PublishSwap?
    ensures var t := HandOver(s);
            Shaped(t.(wpc := Waiting)) && |t.buffer[t.active]| == 0 && t.buffer[t.pending] == Filling(s) && t.pending != t.active
  {
  }

  lemma {:induction false} SwapBytes(s: State)
    requires Shaped(s) && Ownership(s) && Conserved(s) && Enabled(s, Swap)
    ensures Shaped(SwapBuffers(s)) && Conserved(SwapBuffers(s))
  {
    HandOverFacts(s);
    assert !s.wpc.Writing? && !s.task && !s.short;
    assert s.accepted == s.file + [] + Filling(s);
    if |Filling(s)| == 0 && !s.pc.flush {
    } else {
      var t := HandOver(s);
      EmptyLast(s.file, Filling(s));
      assert InFlight(t) == Filling(s) && Filling(t) == [];
    }
  }

  lemma EmptyLast(a: seq<byte>, b: seq<byte>)
    ensures a + [] + b == a + b + []
  {
  }

  lemma {:induction false} WriteFailsBytes(s: State)
    requires Shaped(s) && Ownership(s) && Conserved(s) && Enabled(s, WriteFails)
    ensures Shaped(Apply(s, WriteFails)) && Conserved(Apply(s, WriteFails))
  {
    assert s.file <= s.file + (InFlight(s) + Filling(s));
    assert s.accepted == s.file + (InFlight(s) + Filling(s));
  }

  /** Steps that move no bytes. */
  lemma ProducerQuietBytes(s: State, a: Action)
    requires Control(s) && Conserved(s) && Enabled(s, a) && !WorkerStep(a)
    requires !a.Copy? && !a.StartInline? && !a.Swap?
    ensures Shaped(Apply(s, a)) && Conserved(Apply(s, a))
  {
  }

  lemma {:induction false} WorkerQuietBytes(s: State, a: Action)
    requires Control(s) && Conserved(s) && Enabled(s, a) && WorkerStep(a) && !a.WriteByte? && !a.WriteFails?
    ensures Shaped(Apply(s, a)) && Conserved(Apply(s, a))
  {
    if a.Take? { assert Job(s)[0..] == Job(s); }
    if a.WriteEnds? { assert Job(s)[|Job(s)|..] == []; }
  }

  lemma {:induction false} BeginRequests(s: State, data: seq<byte>)
    requires Shaped(s) && Requests(s) && s.pc.Idle?
    ensures Requests(Apply(s, BeginWrite(data)))
  {
    assert s.accepted + [] == s.accepted;
  }

  predicate RestKept(s: State, t: State)
  {
    && t.accepted == s.accepted && t.requested == s.requested && (s.failed ==> t.failed)
    && (Rest(t.pc) == Rest(s.pc) || (Rest(t.pc) == [] && t.failed))
  }

  /** Steps other than copying keep what is still to copy, unless the write call gives up. */
  lemma {:induction false} PublishRest(s: State, a: Action)
    requires Control(s) && Enabled(s, a) && PublishStep(a)
    ensures RestKept(s, Apply(s, a))
  {
    match a
    case JoinToPublish => JoinRest(s);
    case Swap => SwapRest(s);
    case _ =>
  }

  function CallerRest(c: Caller): seq<byte> { if c.FromWrite? then c.rest else [] }

  lemma ReturnsRest(failed: bool, caller: Caller)
    ensures Rest(PublishReturns(failed, caller, true)) == CallerRest(caller)
    ensures forall f :: Rest(PublishSwap(f, caller)) == CallerRest(caller)
    ensures Rest(PublishStart(caller)) == CallerRest(caller)
  {
  }

  lemma JoinRest(s: State)
    requires s.pc.PublishJoin? && (s.ioFailed ==> s.failed)
    ensures RestKept(s, JoinAndPublish(s))
  {
  }

  lemma {:induction false} SwapRest(s: State)
    requires Shaped(s) && s.pc.PublishSwap?
    ensures RestKept(s, SwapBuffers(s))
  {
    HandOverRest(s, HandOver(s));
    var t := s.(pc := PublishReturns(s.failed, s.pc.caller, true));
    ReturnsRest(s.failed, s.pc.caller);
    assert Rest(t.pc) == Rest(s.pc);
  }

  lemma {:induction false} HandOverRest(s: State, t: State)
    requires Shaped(s) && s.pc.PublishSwap? && t == HandOver(s)
    ensures RestKept(s, t)
  {
    ReturnsRest(s.failed, s.pc.caller);
    assert t.pc == PublishStart(s.pc.caller);
    assert t.accepted == s.accepted && t.requested == s.requested && t.failed == s.failed;
  }

  lemma OtherRest(s: State, a: Action)
    requires Control(s) && Enabled(s, a) && !PublishStep(a) && !a.Copy? && !a.BeginWrite?
    ensures RestKept(s, Apply(s, a))
  {
  }

  lemma {:induction false} RequestsKeep(s: State, a: Action)
    requires Control(s) && Requests(s) && Enabled(s, a)
    ensures Requests(Apply(s, a))
  {
    if a.Copy? {
      CopyRequests(s);
    } else if a.BeginWrite? {
      BeginRequests(s, a.data);
    } else {
      if PublishStep(a) { PublishRest(s, a); } else { OtherRest(s, a); }
      assert s.accepted + [] == s.accepted;
    }
  }

  lemma {:induction false} BytesKeep(s: State, a: Action)
    requires Control(s) && Conserved(s) && Enabled(s, a)
    ensures Shaped(Apply(s, a)) && Conserved(Apply(s, a))
  {
    if WorkerStep(a) { WorkerBytes(s, a); } else { ProducerBytes(s, a); }
  }

  lemma {:induction false} WorkerBytes(s: State, a: Action)
    requires Control(s) && Conserved(s) && Enabled(s, a) && WorkerStep(a)
    ensures Shaped(Apply(s, a)) && Conserved(Apply(s, a))
  {
    if a.WriteByte? { WriteByteBytes(s); } else if a.WriteFails? { WriteFailsBytes(s); } else { WorkerQuietBytes(s, a); }
  }

  lemma {:induction false} ProducerBytes(s: State, a: Action)
    requires Control(s) && Conserved(s) && Enabled(s, a) && !WorkerStep(a)
    ensures Shaped(Apply(s, a)) && Conserved(Apply(s, a))
  {
    if a.Copy? {
      CopyBytes(s);
    } else if a.Swap? {
      SwapBytes(s);
    } else if a.StartInline? {
      InlineBytes(s, a.wrote, a.error, a.flushed);
    } else {
      ProducerQuietBytes(s, a);
    }
  }

  // ---- control -----------------------------------------------------------------------

  predicate WorkerStep(a: Action)
  {
    a.Take? || a.WriteByte? || a.WriteFails? || a.WriteEnds? || a.StoreResult? || a.Retire? || a.Exit?
  }

  predicate PublishStep(a: Action) { a.JoinToPublish? || a.Swap? || a.Start? || a.StartInline? }

  lemma WorkerControl(s: State, a: Action)
    requires Control(s) && Enabled(s, a) && WorkerStep(a)
    ensures Ownership(Apply(s, a)) && Faults(Apply(s, a)) && Counted(Apply(s, a))
  {
  }

  lemma JoinControl(s: State)
    requires Control(s) && Conserved(s) && Enabled(s, JoinToPublish)
    ensures Ownership(JoinAndPublish(s)) && Faults(JoinAndPublish(s)) && Counted(JoinAndPublish(s))
  {
  }

  lemma {:induction false} SwapControl(s: State)
    requires Control(s) && Conserved(s) && Enabled(s, Swap)
    ensures Shaped(SwapBuffers(s)) && Ownership(SwapBuffers(s)) && Faults(SwapBuffers(s)) && Counted(SwapBuffers(s))
  {
    HandOverFacts(s);
    HandOverControl(s, HandOver(s));
    QuickControl(s, s.(pc := PublishReturns(s.failed, s.pc.caller, true)));
  }

  lemma {:induction false} HandOverControl(s: State, t: State)
    requires Control(s) && Conserved(s) && Enabled(s, Swap) && t == HandOver(s)
    ensures Shaped(t) && Ownership(t) && Faults(t) && Counted(t)
  {
    HandOverFacts(s);
  }

  lemma QuickControl(s: State, t: State)
    requires Control(s) && Conserved(s) && Enabled(s, Swap) && t == s.(pc := PublishReturns(s.failed, s.pc.caller, true))
    ensures Shaped(t) && Ownership(t) && Counted(t) && (|Filling(s)| == 0 ==> Faults(t))
  {
  }

  lemma StartControl(s: State, a: Action)
    requires Control(s) && Conserved(s) && Enabled(s, a) && (a.Start? || a.StartInline?)
    ensures Shaped(Apply(s, a)) && Ownership(Apply(s, a)) && Faults(Apply(s, a)) && Counted(Apply(s, a))
  {
  }

  lemma OtherControl(s: State, a: Action)
    requires Control(s) && Enabled(s, a) && !PublishStep(a) && !WorkerStep(a)
    ensures Ownership(Apply(s, a)) && Faults(Apply(s, a)) && Counted(Apply(s, a))
  {
  }

  /** Every step of either thread keeps the invariant. */
  lemma {:induction false} StepKeeps(s: State, a: Action)
    requires Inv(s) && Enabled(s, a)
    ensures Inv(Apply(s, a))
  {
    BytesKeep(s, a);
    RequestsKeep(s, a);
    if WorkerStep(a) { WorkerControl(s, a); } else if a.JoinToPublish? { JoinControl(s); }
    else if a.Swap? { SwapControl(s); } else if PublishStep(a) { StartControl(s, a); } else { OtherControl(s, a); }
  }

  // ---- all runs ----------------------------------------------------------------------

  ghost predicate Step(s: State, t: State)
  {
    Shaped(s) && exists a :: Enabled(s, a) && t == Apply(s, a)
  }

  ghost predicate StepAt(ss: seq<State>, i: nat) { i + 1 < |ss| && Step(ss[i], ss[i + 1]) }

  /** A run: any interleaving of producer calls, producer steps, worker steps and I/O outcomes. */
  ghost predicate Behaviour(capacity: nat, hasWorker: bool, ss: seq<State>)
  {
    && |ss| > 0 && ss[0] == Init(capacity, hasWorker)
    && forall i: nat :: i + 1 < |ss| ==> StepAt(ss, i)
  }

  lemma {:induction false} StepInv(s: State, t: State)
    requires Inv(s) && Step(s, t)
    ensures Inv(t)
  {
    var a :| Enabled(s, a) && t == Apply(s, a);
    StepKeeps(s, a);
  }

  lemma {:induction false} AlwaysInv(capacity: nat, hasWorker: bool, ss: seq<State>, i: nat)
    requires capacity > 0 && Behaviour(capacity, hasWorker, ss) && i < |ss|
    ensures Inv(ss[i])
  {
    if i == 0 {
      InitInv(capacity, hasWorker);
    } else {
      AlwaysInv(capacity, hasWorker, ss, i - 1);
      assert StepAt(ss, i - 1);
      StepInv(ss[i - 1], ss[i]);
    }
  }

  /** In every run without a short write, what the file, the job in flight and the active buffer
      hold is, in that order, everything the write calls handed over (less what the current call
      still has to copy); in every run at all, the file holds a prefix of it. */
  lemma {:induction false} StreamConservesBytes(capacity: nat, hasWorker: bool, ss: seq<State>, i: nat)
    requires capacity > 0 && Behaviour(capacity, hasWorker, ss) && i < |ss|
    ensures var s := ss[i];
            && Shaped(s)
            && (!s.short ==> s.accepted == s.file + InFlight(s) + Filling(s))
            && (!s.failed ==> s.accepted + Rest(s.pc) == s.requested)
            && s.file <= s.requested
  {
    AlwaysInv(capacity, hasWorker, ss, i);
    var s := ss[i];
    if !s.short { assert s.file <= s.file + (InFlight(s) + Filling(s)) == s.accepted; }
    assert s.accepted <= s.accepted + Rest(s.pc) <= s.requested;
  }

  /** In every run the worker never reads the buffer being filled, the job fields are never written
      while it runs, and each published job runs exactly once. */
  lemma {:induction false} WorkerIsExclusive(capacity: nat, hasWorker: bool, ss: seq<State>, i: nat)
    requires capacity > 0 && Behaviour(capacity, hasWorker, ss) && i < |ss|
    ensures var s := ss[i];
            && (s.wpc.Writing? ==> s.pending != s.active)
            && (InJob(s.wpc) ==> !s.pc.PublishSwap? && !s.pc.PublishStart?)
            && s.published == s.completed + (if s.task then 1 else 0)
  {
    AlwaysInv(capacity, hasWorker, ss, i);
  }

  /** A flush or destroy that reports success has put every byte of every write into the file. */
  lemma {:induction false} FlushedMeansInFile(capacity: nat, hasWorker: bool, ss: seq<State>, i: nat)
    requires capacity > 0 && Behaviour(capacity, hasWorker, ss) && i < |ss|
    requires ss[i].pc == Returned(CallFlush, true) || ss[i].pc == Gone(true)
    ensures ss[i].file == ss[i].requested
  {
    AlwaysInv(capacity, hasWorker, ss, i);
    var s := ss[i];
    assert InFlight(s) == [] && Filling(s) == [];
    assert s.file + [] + [] == s.file;
    assert s.accepted + [] == s.accepted;
  }

  /** Without an I/O failure no call reports failure. */
  lemma {:induction false} NoFaultNoFailure(capacity: nat, hasWorker: bool, ss: seq<State>, i: nat)
    requires capacity > 0 && Behaviour(capacity, hasWorker, ss) && i < |ss|
    requires !ss[i].fault && (ss[i].pc.Returned? || ss[i].pc.Gone?)
    ensures ss[i].pc.ok
  {
    AlwaysInv(capacity, hasWorker, ss, i);
  }

  /** A step that can be taken whenever a call is in progress: the producer's own, or the
      worker's when the producer waits for it. */
  function Progress(s: State): Action
    requires Shaped(s)
  {
    match s.pc
    case Idle => BeginFlush
    case Gone(_) => BeginFlush
    case Copying(rest) => if rest == [] then FinishWrite else Copy
    case PublishSwap(_, _) => Swap
    case PublishStart(_) => if s.hasWorker then Start else StartInline(0, false, true)
    case FlushFile(_, _) => FlushFileNow(true)
    case Returned(_, _) => Return
    case PublishJoin(_, _) => if s.inflight && s.task then WorkerProgress(s) else JoinToPublish
    case FlushJoin(_, _) => if s.inflight && s.task then WorkerProgress(s) else JoinToFlush
    case DestroyJoin(_) => StopWorker
    case DestroyWait(_) => if s.hasWorker && !s.wpc.Exited? then Exit else WorkerGone
  }

  function WorkerProgress(s: State): Action
    requires Shaped(s)
  {
    match s.wpc
    case Waiting => Take
    case Writing(at) => if at < |Job(s)| then WriteByte else WriteEnds(false, true)
    case JobDone(_) => StoreResult
    case Retiring => Retire
    case Exited => Exit
  }

  /** No run ever blocks: a call in progress can always take a step. */
  lemma {:induction false} NeverDeadlocks(capacity: nat, hasWorker: bool, ss: seq<State>, i: nat)
    requires capacity > 0 && Behaviour(capacity, hasWorker, ss) && i < |ss|
    requires !ss[i].pc.Gone?
    ensures Shaped(ss[i]) && Enabled(ss[i], Progress(ss[i]))
  {
    AlwaysInv(capacity, hasWorker, ss, i);
  }

  // ---- calls, by the actions of a run ------------------------------------------------

  ghost predicate TakenAt(ss: seq<State>, acts: seq<Action>, i: nat)
  {
    i < |acts| && i + 1 < |ss| && Shaped(ss[i]) && Enabled(ss[i], acts[i]) && ss[i + 1] == Apply(ss[i], acts[i])
  }

  /** A run with the action of each of its steps. */
  ghost predicate RunBy(capacity: nat, hasWorker: bool, ss: seq<State>, acts: seq<Action>)
  {
    && capacity > 0 && |ss| == |acts| + 1 && ss[0] == Init(capacity, hasWorker)
    && forall i: nat :: i < |acts| ==> TakenAt(ss, acts, i)
  }

  lemma {:induction false} RunIsBehaviour(capacity: nat, hasWorker: bool, ss: seq<State>, acts: seq<Action>)
    requires RunBy(capacity, hasWorker, ss, acts)
    ensures Behaviour(capacity, hasWorker, ss)
  {
    forall i: nat | i + 1 < |ss| ensures StepAt(ss, i) {
      assert TakenAt(ss, acts, i);
    }
  }

  /** What write calls handed over: the data of every write call that found the stream healthy. */
  function Handed(ss: seq<State>, acts: seq<Action>, n: nat): seq<byte>
    requires n <= |acts| && n <= |ss|
  {
    if n == 0 then []
    else Handed(ss, acts, n - 1) + match acts[n - 1] case BeginWrite(data) => if ss[n - 1].failed then [] else data case _ => []
  }

  lemma {:induction false} RequestedStep(s: State, a: Action)
    requires Control(s) && Enabled(s, a)
    ensures a.BeginWrite? ==> Apply(s, a).requested == s.requested + if s.failed then [] else a.data
    ensures !a.BeginWrite? ==> Apply(s, a).requested == s.requested
  {
    if a.BeginWrite? {
      assert s.requested + [] == s.requested;
    } else if PublishStep(a) {
      PublishRest(s, a);
    } else if !a.Copy? {
      OtherRest(s, a);
    }
  }

  /** The byte string the stream's laws speak of is exactly what the write calls were given. */
  lemma {:induction false} RequestedIsHanded(capacity: nat, hasWorker: bool, ss: seq<State>, acts: seq<Action>, i: nat)
    requires RunBy(capacity, hasWorker, ss, acts) && i < |ss|
    ensures ss[i].requested == Handed(ss, acts, i)
  {
    if i > 0 {
      RequestedIsHanded(capacity, hasWorker, ss, acts, i - 1);
      assert TakenAt(ss, acts, i - 1);
      RunIsBehaviour(capacity, hasWorker, ss, acts);
      AlwaysInv(capacity, hasWorker, ss, i - 1);
      RequestedStep(ss[i - 1], acts[i - 1]);
    }
  }

  predicate InWrite(pc: ProducerPc)
  {
    pc.Copying? || ((pc.PublishJoin? || pc.PublishSwap? || pc.PublishStart?) && pc.caller.FromWrite?)
  }

  /** A write of `data` that began with `before` accepted, in progress or returned. */
  predicate WriteCall(s: State, data: seq<byte>, before: seq<byte>)
  {
    if InWrite(s.pc) then !s.failed && s.accepted + Rest(s.pc) == before + data
    else s.pc == Returned(CallWrite, !s.failed) && (!s.failed ==> s.accepted == before + data)
  }

  lemma {:induction false} WriteCopies(s: State, data: seq<byte>, before: seq<byte>)
    requires Shaped(s) && Enabled(s, Copy) && WriteCall(s, data, before)
    ensures WriteCall(CopyInto(s), data, before)
  {
    var rest := s.pc.rest;
    var n := Min(s.capacity - |Filling(s)|, |rest|);
    assert rest[..n] + rest[n..] == rest;
    assert (s.accepted + rest[..n]) + rest[n..] == s.accepted + rest;
  }

  lemma {:induction false} WriteKeeps(s: State, a: Action, data: seq<byte>, before: seq<byte>)
    requires Shaped(s) && Ownership(s) && Faults(s) && Enabled(s, a) && !s.pc.Returned? && WriteCall(s, data, before)
    ensures WriteCall(Apply(s, a), data, before)
  {
    match a
    case Copy => WriteCopies(s, data, before);
    case FinishWrite => assert s.accepted + [] == s.accepted;
    case JoinToPublish => WriteJoins(s, data, before);
    case Swap => WriteSwaps(s, data, before);
    case _ =>
  }

  lemma WriteJoins(s: State, data: seq<byte>, before: seq<byte>)
    requires s.pc.PublishJoin? && (s.ioFailed ==> s.failed) && WriteCall(s, data, before)
    ensures WriteCall(JoinAndPublish(s), data, before)
  {
  }

  /** The swap changes neither what was accepted nor whether the stream failed. */
  predicate SwapsTo(s: State, t: State)
    requires s.pc.PublishSwap?
  {
    && t.accepted == s.accepted && t.failed == s.failed
    && (t.pc == PublishReturns(s.failed, s.pc.caller, true) || t.pc == PublishStart(s.pc.caller))
  }

  lemma {:induction false} SwapPc(s: State)
    requires Shaped(s) && s.pc.PublishSwap?
    ensures SwapsTo(s, SwapBuffers(s))
  {
    HandOverPc(s, HandOver(s));
    QuickPc(s, s.(pc := PublishReturns(s.failed, s.pc.caller, true)));
  }

  lemma {:induction false} HandOverPc(s: State, t: State)
    requires Shaped(s) && s.pc.PublishSwap? && t == HandOver(s)
    ensures SwapsTo(s, t)
  {
    assert t.pc == PublishStart(s.pc.caller);
    assert t.accepted == s.accepted && t.failed == s.failed;
  }

  lemma QuickPc(s: State, t: State)
    requires s.pc.PublishSwap? && t == s.(pc := PublishReturns(s.failed, s.pc.caller, true))
    ensures SwapsTo(s, t)
  {
  }

  lemma {:induction false} WriteSwaps(s: State, data: seq<byte>, before: seq<byte>)
    requires Shaped(s) && s.pc.PublishSwap? && WriteCall(s, data, before)
    ensures WriteCall(SwapBuffers(s), data, before)
  {
    SwapPc(s);
    ReturnsRest(s.failed, s.pc.caller);
    assert s.pc == PublishSwap(s.pc.flush, s.pc.caller);
  }

  lemma {:induction false} WriteAlong(capacity: nat, hasWorker: bool, ss: seq<State>, acts: seq<Action>, i: nat, j: nat, data: seq<byte>)
    requires RunBy(capacity, hasWorker, ss, acts) && i < j < |ss| && acts[i] == BeginWrite(data)
    requires forall k :: i < k < j ==> !ss[k].pc.Returned?
    ensures WriteCall(ss[j], data, ss[i].accepted)
  {
    if j > i + 1 {
      WriteAlong(capacity, hasWorker, ss, acts, i, j - 1, data);
      WriteGoesOn(capacity, hasWorker, ss, acts, j, data, ss[i].accepted);
    } else {
      assert TakenAt(ss, acts, i);
      WriteBegins(ss[i], data);
    }
  }

  lemma {:induction false} WriteGoesOn(capacity: nat, hasWorker: bool, ss: seq<State>, acts: seq<Action>, j: nat, data: seq<byte>, before: seq<byte>)
    requires RunBy(capacity, hasWorker, ss, acts) && 0 < j < |ss|
    requires !ss[j - 1].pc.Returned? && WriteCall(ss[j - 1], data, before)
    ensures WriteCall(ss[j], data, before)
  {
    InvBefore(capacity, hasWorker, ss, acts, j);
    WriteMoves(ss[j - 1], acts[j - 1], ss[j], data, before);
  }

  lemma {:induction false} InvBefore(capacity: nat, hasWorker: bool, ss: seq<State>, acts: seq<Action>, j: nat)
    requires RunBy(capacity, hasWorker, ss, acts) && 0 < j < |ss|
    ensures TakenAt(ss, acts, j - 1) && Inv(ss[j - 1])
  {
    RunIsBehaviour(capacity, hasWorker, ss, acts);
    assert TakenAt(ss, acts, j - 1);
    AlwaysInv(capacity, hasWorker, ss, j - 1);
  }

  lemma {:induction false} WriteMoves(s: State, a: Action, t: State, data: seq<byte>, before: seq<byte>)
    requires Inv(s) && Enabled(s, a) && t == Apply(s, a) && !s.pc.Returned? && WriteCall(s, data, before)
    ensures WriteCall(t, data, before)
  {
    WriteKeeps(s, a, data, before);
  }

  lemma WriteBegins(s: State, data: seq<byte>)
    requires Shaped(s) && Enabled(s, BeginWrite(data))
    ensures WriteCall(Apply(s, BeginWrite(data)), data, s.accepted)
  {
  }

  /** Every write call, from its argument to its result: it succeeds exactly when the stream has not
      failed, and then exactly its bytes have been taken. */
  lemma {:induction false} WriteAnswered(capacity: nat, hasWorker: bool, ss: seq<State>, acts: seq<Action>, i: nat, j: nat, data: seq<byte>)
    requires RunBy(capacity, hasWorker, ss, acts) && i < j < |ss| && acts[i] == BeginWrite(data)
    requires (forall k :: i < k < j ==> !ss[k].pc.Returned?) && ss[j].pc.Returned?
    ensures ss[j].pc == Returned(CallWrite, !ss[j].failed)
    ensures !ss[j].failed ==> ss[j].accepted == ss[i].accepted + data
  {
    WriteAlong(capacity, hasWorker, ss, acts, i, j, data);
  }

  /** The three flushing calls. */
  datatype Flushing = Async | Flush | Destroy

  function Begins(f: Flushing): Action
  {
    match f case Async => BeginFlushAsync case Flush => BeginFlush case Destroy => BeginDestroy
  }

  function CallerOf(f: Flushing): Caller
  {
    if f == Async then FromFlushAsync else FromFlush(f == Destroy)
  }

  predicate Ended(pc: ProducerPc) { pc.Returned? || pc.Gone? }

  predicate FlushCall(s: State, f: Flushing)
    requires Shaped(s)
  {
    match s.pc
    case PublishJoin(flush, caller) => caller == CallerOf(f) && flush == (f == Async)
    case PublishSwap(flush, caller) => caller == CallerOf(f) && flush == (f == Async)
    case PublishStart(caller) => caller == CallerOf(f) && s.pendingFlush == (f == Async) && |Filling(s)| == 0
    case FlushJoin(ok, destroying) => f != Async && destroying == (f == Destroy) && (!ok ==> s.failed)
    case FlushFile(ok, destroying) => f != Async && destroying == (f == Destroy) && (!ok ==> s.failed)
    case DestroyJoin(ok) => f == Destroy && ok == !s.failed
    case DestroyWait(ok) => f == Destroy && ok == !s.failed
    case Gone(ok) => f == Destroy && ok == !s.failed
    case Returned(CallFlush, ok) => f == Flush && ok == !s.failed
    case Returned(CallFlushAsync, ok) =>
      f == Async && ok == !s.failed && (ok ==> |Filling(s)| == 0 && s.inflight && s.pendingFlush)
    case _ => false
  }

  lemma FlushWorkerKeeps(s: State, a: Action, f: Flushing)
    requires Shaped(s) && Enabled(s, a) && WorkerStep(a) && FlushCall(s, f) && Shaped(Apply(s, a))
    ensures FlushCall(Apply(s, a), f)
  {
  }

  lemma FlushJoins(s: State, f: Flushing)
    requires Control(s) && Enabled(s, JoinToPublish) && FlushCall(s, f) && Shaped(JoinAndPublish(s))
    ensures FlushCall(JoinAndPublish(s), f)
  {
  }

  lemma {:induction false} FlushSwaps(s: State, f: Flushing)
    requires Control(s) && Enabled(s, Swap) && FlushCall(s, f) && Shaped(SwapBuffers(s))
    ensures FlushCall(SwapBuffers(s), f)
  {
    HandOverFacts(s);
  }

  lemma FlushStarts(s: State, a: Action, f: Flushing)
    requires Control(s) && Enabled(s, a) && (a.Start? || a.StartInline?) && FlushCall(s, f) && Shaped(Apply(s, a))
    ensures FlushCall(Apply(s, a), f)
  {
  }

  lemma {:induction false} FlushKeeps(s: State, a: Action, f: Flushing)
    requires Control(s) && Enabled(s, a) && !Ended(s.pc) && FlushCall(s, f) && Shaped(Apply(s, a))
    ensures FlushCall(Apply(s, a), f)
  {
    if WorkerStep(a) { FlushWorkerKeeps(s, a, f); }
    else if a.JoinToPublish? { FlushJoins(s, f); }
    else if a.Swap? { FlushSwaps(s, f); }
    else if a.Start? || a.StartInline? { FlushStarts(s, a, f); }
  }

  lemma FlushBegins(s: State, f: Flushing)
    requires Shaped(s) && Enabled(s, Begins(f)) && Shaped(Apply(s, Begins(f)))
    ensures FlushCall(Apply(s, Begins(f)), f)
  {
  }

  lemma {:induction false} ShapedAt(capacity: nat, hasWorker: bool, ss: seq<State>, acts: seq<Action>, j: nat)
    requires RunBy(capacity, hasWorker, ss, acts) && j < |ss|
    ensures Shaped(ss[j])
  {
    RunIsBehaviour(capacity, hasWorker, ss, acts);
    AlwaysInv(capacity, hasWorker, ss, j);
  }

  lemma {:induction false} ControlAt(capacity: nat, hasWorker: bool, ss: seq<State>, acts: seq<Action>, j: nat)
    requires RunBy(capacity, hasWorker, ss, acts) && j < |ss|
    ensures Control(ss[j])
  {
    RunIsBehaviour(capacity, hasWorker, ss, acts);
    AlwaysInv(capacity, hasWorker, ss, j);
  }

  lemma {:induction false} FlushMoves(s: State, a: Action, t: State, f: Flushing)
    requires Inv(s) && Enabled(s, a) && t == Apply(s, a) && Shaped(t) && !Ended(s.pc) && FlushCall(s, f)
    ensures FlushCall(t, f)
  {
    FlushKeeps(s, a, f);
  }

  lemma {:induction false} FlushAlong(capacity: nat, hasWorker: bool, ss: seq<State>, acts: seq<Action>, i: nat, j: nat, f: Flushing)
    requires RunBy(capacity, hasWorker, ss, acts) && i < j < |ss| && acts[i] == Begins(f)
    requires forall k :: i < k < j ==> !Ended(ss[k].pc)
    ensures Shaped(ss[j]) && FlushCall(ss[j], f)
  {
    ShapedAt(capacity, hasWorker, ss, acts, j);
    if j > i + 1 {
      FlushAlong(capacity, hasWorker, ss, acts, i, j - 1, f);
      FlushGoesOn(capacity, hasWorker, ss, acts, j, f);
    } else {
      assert TakenAt(ss, acts, i);
      FlushBegins(ss[i], f);
    }
  }

  lemma {:induction false} FlushGoesOn(capacity: nat, hasWorker: bool, ss: seq<State>, acts: seq<Action>, j: nat, f: Flushing)
    requires RunBy(capacity, hasWorker, ss, acts) && 0 < j < |ss| && Shaped(ss[j - 1]) && Shaped(ss[j])
    requires !Ended(ss[j - 1].pc) && FlushCall(ss[j - 1], f)
    ensures FlushCall(ss[j], f)
  {
    InvBefore(capacity, hasWorker, ss, acts, j);
    FlushMoves(ss[j - 1], acts[j - 1], ss[j], f);
  }

  /** An action in which the file failed: a write fell short, the error indicator was up after one, or a
      flush that was asked for did not succeed. */
  predicate FaultAction(s: State, a: Action)
    requires Shaped(s)
  {
    match a
    case WriteFails => true
    case WriteEnds(error, flushed) => error || (s.pendingFlush && !flushed)
    case StartInline(wrote, error, flushed) => wrote < |Job(s)| || error || (s.pendingFlush && !flushed)
    case FlushFileNow(flushed) => !flushed
    case _ => false
  }

  /** A fault that has happened is on its way to the producer or has reached it. */
  predicate FaultSeen(s: State) { s.fault ==> s.failed || JobFailed(s) }

  lemma FaultWorker(s: State, a: Action)
    requires Control(s) && Enabled(s, a) && WorkerStep(a) && FaultSeen(s)
    ensures FaultSeen(Apply(s, a)) && Apply(s, a).fault == (s.fault || FaultAction(s, a))
  {
  }

  lemma {:induction false} FaultSwap(s: State)
    requires Control(s) && Enabled(s, Swap) && FaultSeen(s)
    ensures FaultSeen(SwapBuffers(s)) && SwapBuffers(s).fault == s.fault
  {
    FaultHandOver(s, HandOver(s));
  }

  lemma FaultHandOver(s: State, t: State)
    requires Control(s) && Enabled(s, Swap) && FaultSeen(s) && t == HandOver(s)
    ensures FaultSeen(t) && t.fault == s.fault
  {
  }

  lemma FaultPublish(s: State, a: Action)
    requires Control(s) && Enabled(s, a) && (a.JoinToPublish? || a.Start? || a.StartInline?) && FaultSeen(s)
    ensures FaultSeen(Apply(s, a)) && Apply(s, a).fault == (s.fault || FaultAction(s, a))
  {
  }

  lemma FaultOther(s: State, a: Action)
    requires Control(s) && Enabled(s, a) && !WorkerStep(a) && !PublishStep(a) && FaultSeen(s)
    ensures FaultSeen(Apply(s, a)) && Apply(s, a).fault == (s.fault || FaultAction(s, a))
  {
  }

  lemma {:induction false} FaultStep(s: State, a: Action)
    requires Control(s) && Enabled(s, a) && FaultSeen(s)
    ensures FaultSeen(Apply(s, a)) && Apply(s, a).fault == (s.fault || FaultAction(s, a))
  {
    if WorkerStep(a) { FaultWorker(s, a); }
    else if a.Swap? { FaultSwap(s); }
    else if PublishStep(a) { FaultPublish(s, a); }
    else { FaultOther(s, a); }
  }

  /** Some action before position i was a fault. */
  ghost predicate Faulted(ss: seq<State>, acts: seq<Action>, i: nat)
    requires i <= |acts| && i <= |ss|
  {
    exists k: nat :: k < i && Shaped(ss[k]) && FaultAction(ss[k], acts[k])
  }

  lemma {:induction false} FaultsAlong(capacity: nat, hasWorker: bool, ss: seq<State>, acts: seq<Action>, i: nat)
    requires RunBy(capacity, hasWorker, ss, acts) && i < |ss|
    ensures FaultSeen(ss[i]) && (ss[i].fault <==> Faulted(ss, acts, i))
  {
    if i > 0 {
      FaultsAlong(capacity, hasWorker, ss, acts, i - 1);
      InvBefore(capacity, hasWorker, ss, acts, i);
      FaultStep(ss[i - 1], acts[i - 1]);
      FaultedStep(ss, acts, i);
    }
  }

  lemma {:induction false} FaultedStep(ss: seq<State>, acts: seq<Action>, i: nat)
    requires 0 < i <= |acts| && i <= |ss| && Shaped(ss[i - 1])
    ensures Faulted(ss, acts, i) <==> Faulted(ss, acts, i - 1) || FaultAction(ss[i - 1], acts[i - 1])
  {
    if Faulted(ss, acts, i) {
      var k: nat :| k < i && Shaped(ss[k]) && FaultAction(ss[k], acts[k]);
      assert k == i - 1 || Faulted(ss, acts, i - 1);
    }
  }

  /** When a flush or destroy ends, a fault has been noticed. */
  lemma {:induction false} FaultNoticed(s: State, f: Flushing)
    requires Control(s) && FaultSeen(s) && f != Async && FlushCall(s, f) && Ended(s.pc)
    ensures s.failed == s.fault
  {
    assert Reported(s).Some?;
  }

  /** Every flush and destroy, from its start to its result: it succeeds exactly when the file has never
      failed, and then the file holds everything the write calls were given. */
  lemma {:induction false} FlushAnswered(capacity: nat, hasWorker: bool, ss: seq<State>, acts: seq<Action>, i: nat, j: nat, f: Flushing)
    requires RunBy(capacity, hasWorker, ss, acts) && i < j < |ss| && acts[i] == Begins(f) && f != Async
    requires (forall k :: i < k < j ==> !Ended(ss[k].pc)) && Ended(ss[j].pc)
    ensures ss[j].pc == if f == Flush then Returned(CallFlush, !Faulted(ss, acts, j)) else Gone(!Faulted(ss, acts, j))
    ensures !Faulted(ss, acts, j) ==> ss[j].file == Handed(ss, acts, j)
  {
    FlushAlong(capacity, hasWorker, ss, acts, i, j, f);
    FaultsAlong(capacity, hasWorker, ss, acts, j);
    ControlAt(capacity, hasWorker, ss, acts, j);
    FaultNoticed(ss[j], f);
    RunIsBehaviour(capacity, hasWorker, ss, acts);
    RequestedIsHanded(capacity, hasWorker, ss, acts, j);
    if !ss[j].failed { FlushedMeansInFile(capacity, hasWorker, ss, j); }
  }

  /** An asynchronous flush that succeeds has put everything taken so far into the file or into the job
      in flight, which will flush the file. */
  lemma {:induction false} AsyncFlushAnswered(capacity: nat, hasWorker: bool, ss: seq<State>, acts: seq<Action>, i: nat, j: nat)
    requires RunBy(capacity, hasWorker, ss, acts) && i < j < |ss| && acts[i] == BeginFlushAsync
    requires (forall k :: i < k < j ==> !Ended(ss[k].pc)) && Ended(ss[j].pc)
    ensures ss[j].pc == Returned(CallFlushAsync, !ss[j].failed) && Shaped(ss[j])
    ensures !ss[j].failed ==> |Filling(ss[j])| == 0 && ss[j].inflight && ss[j].pendingFlush
  {
    FlushAlong(capacity, hasWorker, ss, acts, i, j, Async);
  }
}

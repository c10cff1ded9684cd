/**
  The life of one language model session shared by the JavaScript thread and the
  worker threads that run its prompts. A step is what one thread does between two
  points where another thread can interfere; a run is any interleaving of steps.
 */
module SessionProtocol {

  datatype Status = Succeeded | Cancelled | Failed

  /** A prompt job: waiting for a worker, inside `ExecutePrompt` with the holder's mutex, or returned. */
  datatype Phase =
    | Queued
    | Checking
    | Entering
    | Generating
    | Returned(status: Status)

  /** Where the JavaScript thread is. `final` says that the garbage collector's finalizer runs. */
  datatype Js =
    | Idle
    | PromptRead
    | PromptReset
    | CancelRead
    | UsageRead
    | MeasureWaits
    | MeasureLocked
    | DestroyStarts(final: bool)
    | DestroyWaits(final: bool)
    | DestroyLocked(final: bool)
    | DeletesHolder

  datatype Owner = Free | ByJs | ByWorker(id: nat)

  /**
    The holder's fields, the session's cancel flag, and the threads. `live` and
    `holderLive` say whether the memory is still allocated, `frees` how often the
    session was destroyed, `reachable` whether JavaScript still holds the handle.
   */
  datatype State = State(
    holderLive: bool, destroyed: bool, session: bool, mutex: Owner,
    live: bool, frees: nat, cancelled: bool,
    js: Js, reachable: bool, jobs: map<nat, Phase>)

  datatype Step =
    // JavaScript thread
    | CallPrompt | RejectInput | ResetCancel | Queue(id: nat)
    | CallCancel | StoreCancel
    | CallUsage | LoadUsage
    | CallMeasure | LockMeasure | Measure
    | CallDestroy | Finalize | BeginDestroy | LockDestroy | FreeSession | DeleteHolder
    | DropHandle | Complete(id: nat)
    // worker threads
    | LockWorker(id: nat) | CheckHolder(id: nat) | EnterPrompt(id: nat) | Generate(id: nat)
    | Finish(id: nat, status: Status)

  predicate InPrompt(p: Phase) {
    p.Entering? || p.Generating?
  }

  predicate HoldsMutex(p: Phase) {
    p.Checking? || InPrompt(p)
  }

  function Initial(): State {
    State(true, false, true, Free, true, 0, false, Idle, true, map[])
  }

  // ---- Steps --------------------------------------------------------------

  predicate JobIs(s: State, id: nat, p: Phase) {
    id in s.jobs && s.jobs[id] == p
  }

  predicate Enabled(s: State, st: Step) {
    match st
    case CallPrompt => s.js == Idle && s.reachable
    case RejectInput => s.js == PromptRead
    case ResetCancel => s.js == PromptRead
    case Queue(id) => s.js == PromptReset && id !in s.jobs
    case CallCancel => s.js == Idle && s.reachable
    case StoreCancel => s.js == CancelRead
    case CallUsage => s.js == Idle && s.reachable
    case LoadUsage => s.js == UsageRead
    case CallMeasure => s.js == Idle && s.reachable
    case LockMeasure => s.js == MeasureWaits && s.mutex == Free
    case Measure => s.js == MeasureLocked
    case CallDestroy => s.js == Idle && s.reachable
    case Finalize => s.js == Idle && !s.reachable && s.holderLive && s.jobs == map[]
    case BeginDestroy => s.js.DestroyStarts?
    case LockDestroy => s.js.DestroyWaits? && s.mutex == Free
    case FreeSession => s.js.DestroyLocked?
    case DeleteHolder => s.js == DeletesHolder
    case DropHandle => s.js == Idle && s.reachable
    case Complete(id) => s.js == Idle && id in s.jobs && s.jobs[id].Returned?
    case LockWorker(id) => JobIs(s, id, Queued) && s.mutex == Free
    case CheckHolder(id) => JobIs(s, id, Checking)
    case EnterPrompt(id) => JobIs(s, id, Entering)
    case Generate(id) => JobIs(s, id, Generating)
    case Finish(id, status) => JobIs(s, id, Generating) && status != Cancelled
  }

  /** The job returns and its lock guard releases the mutex. */
  function Return(s: State, id: nat, status: Status): State {
    s.(jobs := s.jobs[id := Returned(status)], mutex := Free)
  }

  function AfterDestroy(final: bool): Js {
    if final then DeletesHolder else Idle
  }

  function Apply(s: State, st: Step): State
    requires Enabled(s, st)
  {
    match st
    case CallPrompt => if s.destroyed then s else s.(js := PromptRead)
    case RejectInput => s.(js := Idle)
    case ResetCancel => s.(cancelled := false, js := PromptReset)
    case Queue(id) => s.(jobs := s.jobs[id := Queued], js := Idle)
    case CallCancel => if s.destroyed then s else s.(js := CancelRead)
    case StoreCancel => s.(cancelled := true, js := Idle)
    case CallUsage => if s.destroyed then s else s.(js := UsageRead)
    case LoadUsage => s.(js := Idle)
    case CallMeasure => if s.destroyed then s else s.(js := MeasureWaits)
    case LockMeasure => s.(mutex := ByJs, js := MeasureLocked)
    case Measure => s.(mutex := Free, js := Idle)
    case CallDestroy => if s.destroyed then s else s.(destroyed := true, js := DestroyStarts(false))
    case Finalize => s.(destroyed := true, js := DestroyStarts(true))
    case BeginDestroy =>
      if !s.session then s.(js := AfterDestroy(s.js.final))
      else s.(cancelled := true, js := DestroyWaits(s.js.final))
    case LockDestroy => s.(mutex := ByJs, js := DestroyLocked(s.js.final))
    case FreeSession =>
      var t := if s.session then s.(live := false, frees := s.frees + 1, session := false) else s;
      t.(mutex := Free, js := AfterDestroy(s.js.final))
    case DeleteHolder => s.(holderLive := false, js := Idle)
    case DropHandle => s.(reachable := false)
    case Complete(id) => s.(jobs := s.jobs - {id})
    case LockWorker(id) => s.(jobs := s.jobs[id := Checking], mutex := ByWorker(id))
    case CheckHolder(id) =>
      if s.destroyed || !s.session then Return(s, id, Cancelled) else s.(jobs := s.jobs[id := Entering])
    case EnterPrompt(id) =>
      if s.cancelled then Return(s, id, Cancelled) else s.(jobs := s.jobs[id := Generating])
    case Generate(id) => if s.cancelled then Return(s, id, Cancelled) else s
    case Finish(id, status) => Return(s, id, status)
  }

  /** The step reads or writes a field of the holder, its mutex included. */
  predicate TouchesHolder(s: State, st: Step)
    requires Enabled(s, st)
  {
    !st.RejectInput? && !st.Queue? && !st.DropHandle? && !st.Complete?
  }

  /** The step reads or writes the session behind the holder's pointer. */
  predicate TouchesSession(s: State, st: Step)
    requires Enabled(s, st)
  {
    match st
    case ResetCancel | StoreCancel | LoadUsage => true
    case Measure => !s.destroyed && s.session
    case BeginDestroy | FreeSession => s.session
    case EnterPrompt(_) | Generate(_) | Finish(_, _) => true
    case _ => false
  }

  // ---- Runs ---------------------------------------------------------------

  predicate IsRun(s: State, steps: seq<Step>)
    decreases |steps|
  {
    steps == [] || (Enabled(s, steps[0]) && IsRun(Apply(s, steps[0]), steps[1..]))
  }

  function After(s: State, steps: seq<Step>): State
    requires IsRun(s, steps)
    decreases |steps|
  {
    if steps == [] then s else After(Apply(s, steps[0]), steps[1..])
  }

  predicate NoReset(steps: seq<Step>) {
    forall i :: 0 <= i < |steps| ==> !steps[i].ResetCancel?
  }

  predicate NotCompleted(steps: seq<Step>, id: nat) {
    forall i :: 0 <= i < |steps| ==> steps[i] != Complete(id)
  }

  // ---- The invariant ------------------------------------------------------

  predicate Using(js: Js) {
    js.PromptRead? || js.PromptReset? || js.CancelRead? || js.UsageRead? || js.MeasureWaits? || js.MeasureLocked?
  }

  predicate Destroying(js: Js) {
    js.DestroyStarts? || js.DestroyWaits? || js.DestroyLocked?
  }

  ghost predicate MutexInv(s: State) {
    && (s.mutex == ByJs <==> s.js.MeasureLocked? || s.js.DestroyLocked?)
    && (forall id :: id in s.jobs && HoldsMutex(s.jobs[id]) ==> s.mutex == ByWorker(id))
    && (s.mutex.ByWorker? ==> s.mutex.id in s.jobs && HoldsMutex(s.jobs[s.mutex.id]))
  }

  ghost predicate MemoryInv(s: State) {
    && s.session == s.live
    && s.frees == (if s.live then 0 else 1)
    && (s.reachable || s.jobs != map[] || s.js != Idle ==> s.holderLive)
    && (!s.destroyed ==> s.live)
    && (forall id :: id in s.jobs && InPrompt(s.jobs[id]) ==> s.live)
  }

  ghost predicate JsInv(s: State) {
    && (Using(s.js) ==> !s.destroyed && s.reachable)
    && (Destroying(s.js) ==> s.destroyed && (s.js.final <==> !s.reachable) && (s.js.final ==> s.jobs == map[]))
    && (s.js.DestroyWaits? || s.js.DestroyLocked? ==> s.live && s.cancelled)
    && (s.js.DeletesHolder? ==> s.destroyed && !s.live && !s.reachable && s.jobs == map[] && s.mutex == Free)
    && (s.js == Idle && s.destroyed ==> !s.live)
  }

  ghost predicate Inv(s: State) {
    MutexInv(s) && MemoryInv(s) && JsInv(s)
  }

  predicate ByWorkerThread(st: Step) {
    st.LockWorker? || st.CheckHolder? || st.EnterPrompt? || st.Generate? || st.Finish?
  }

  lemma JsStepKeepsMutex(s: State, st: Step)
    requires Inv(s) && Enabled(s, st) && !ByWorkerThread(st)
    ensures MutexInv(Apply(s, st))
  {
  }

  lemma JsStepKeepsMemory(s: State, st: Step)
    requires Inv(s) && Enabled(s, st) && !ByWorkerThread(st)
    ensures MemoryInv(Apply(s, st))
  {
    if st.Complete? {
      assert st.id in s.jobs;
    }
    if st.Queue? {
      assert st.id in Apply(s, st).jobs;
    }
  }

  lemma JsStepKeepsJs(s: State, st: Step)
    requires Inv(s) && Enabled(s, st) && !ByWorkerThread(st)
    ensures JsInv(Apply(s, st))
  {
    if st.Complete? {
      assert st.id in s.jobs;
    }
  }

  /** The job that holds the mutex goes on inside the prompt. */
  lemma GoingOnKeepsMutex(s: State, id: nat, p: Phase)
    requires MutexInv(s) && id in s.jobs && HoldsMutex(s.jobs[id]) && HoldsMutex(p)
    ensures MutexInv(s.(jobs := s.jobs[id := p]))
  {
  }

  lemma ReturnKeepsMutex(s: State, id: nat, status: Status)
    requires MutexInv(s) && id in s.jobs && HoldsMutex(s.jobs[id])
    ensures MutexInv(Return(s, id, status))
  {
  }

  lemma TakingKeepsMutex(s: State, id: nat)
    requires MutexInv(s) && JobIs(s, id, Queued) && s.mutex == Free
    ensures MutexInv(s.(jobs := s.jobs[id := Checking], mutex := ByWorker(id)))
  {
  }

  lemma WorkerStepKeepsMutex(s: State, st: Step)
    requires MutexInv(s) && Enabled(s, st) && ByWorkerThread(st)
    ensures MutexInv(Apply(s, st))
  {
    hide MutexInv, Return;
    match st {
      case LockWorker(id) => TakingKeepsMutex(s, id);
      case CheckHolder(id) =>
        ReturnKeepsMutex(s, id, Cancelled);
        GoingOnKeepsMutex(s, id, Entering);
      case EnterPrompt(id) =>
        ReturnKeepsMutex(s, id, Cancelled);
        GoingOnKeepsMutex(s, id, Generating);
      case Generate(id) => ReturnKeepsMutex(s, id, Cancelled);
      case Finish(id, status) => ReturnKeepsMutex(s, id, status);
    }
  }

  lemma WorkerStepKeepsMemory(s: State, st: Step)
    requires Inv(s) && Enabled(s, st) && ByWorkerThread(st)
    ensures MemoryInv(Apply(s, st)) && JsInv(Apply(s, st))
  {
    assert st.id in s.jobs && st.id in Apply(s, st).jobs;
  }

  /** Every step of every thread keeps the invariant. */
  lemma StepKeepsInv(s: State, st: Step)
    requires Inv(s) && Enabled(s, st)
    ensures Inv(Apply(s, st))
  {
    hide Apply, Enabled, MutexInv, MemoryInv, JsInv;
    if ByWorkerThread(st) {
      WorkerStepKeepsMutex(s, st);
      WorkerStepKeepsMemory(s, st);
    } else {
      JsStepKeepsMutex(s, st);
      JsStepKeepsMemory(s, st);
      JsStepKeepsJs(s, st);
    }
  }

  lemma {:induction false} RunKeepsInv(s: State, steps: seq<Step>)
    requires Inv(s) && IsRun(s, steps)
    ensures Inv(After(s, steps))
    decreases |steps|
  {
    if steps != [] {
      StepKeepsInv(s, steps[0]);
      RunKeepsInv(Apply(s, steps[0]), steps[1..]);
    }
  }

  // ---- Safety -------------------------------------------------------------

  lemma SafeStep(s: State, st: Step)
    requires Inv(s) && Enabled(s, st)
    ensures TouchesHolder(s, st) ==> s.holderLive
    ensures TouchesSession(s, st) ==> s.live
    ensures st.FreeSession? ==> forall id :: id in s.jobs ==> !HoldsMutex(s.jobs[id])
    ensures st.DeleteHolder? ==> s.mutex == Free && s.jobs == map[] && !s.reachable
  {
  }

  /**
    In every interleaving: the session is destroyed at most once and exactly when
    its memory is gone, no step touches a freed session or holder, no worker is
    inside a prompt when the session is freed, and the holder is deleted only when
    nothing refers to it.
   */
  lemma EveryRunIsSafe(steps: seq<Step>, st: Step)
    requires IsRun(Initial(), steps) && Enabled(After(Initial(), steps), st)
    ensures var s := After(Initial(), steps);
      && s.frees == (if s.live then 0 else 1)
      && (TouchesHolder(s, st) ==> s.holderLive)
      && (TouchesSession(s, st) ==> s.live)
      && (st.FreeSession? ==> forall id :: id in s.jobs ==> !HoldsMutex(s.jobs[id]))
      && (st.DeleteHolder? ==> s.mutex == Free && s.jobs == map[] && !s.reachable)
  {
    RunKeepsInv(Initial(), steps);
    SafeStep(After(Initial(), steps), st);
  }

  // ---- After Destroy ------------------------------------------------------

  /** `Destroy` has set the cancel flag; from now on the session is on its way out or gone. */
  predicate Doomed(s: State) {
    s.destroyed && (!s.live || (s.cancelled && (s.js.DestroyWaits? || s.js.DestroyLocked?)))
  }

  /** A job that has not begun to generate, or has ended cancelled. */
  predicate WillCancel(p: Phase) {
    p.Queued? || p.Checking? || p.Entering? || p == Returned(Cancelled)
  }

  /** After the step the session is still doomed, no prompt is about to be queued, and no job has lost its way to `Cancelled`. */
  ghost predicate StaysDoomed(s: State, t: State) {
    && Doomed(t) && !t.js.PromptReset?
    && forall id :: id in t.jobs ==> id in s.jobs && (WillCancel(s.jobs[id]) ==> WillCancel(t.jobs[id]))
  }

  lemma DoomWorkerStep(s: State, st: Step)
    requires Inv(s) && Enabled(s, st) && Doomed(s) && ByWorkerThread(st)
    ensures StaysDoomed(s, Apply(s, st))
  {
    match st {
      case LockWorker(_) =>
      case CheckHolder(_) =>
      case EnterPrompt(_) =>
      case Generate(_) =>
      case Finish(_, _) =>
    }
  }

  lemma DoomStep(s: State, st: Step)
    requires Inv(s) && Enabled(s, st) && Doomed(s)
    ensures StaysDoomed(s, Apply(s, st))
  {
    if ByWorkerThread(st) {
      DoomWorkerStep(s, st);
    }
  }

  /**
    Once `Destroy` has set the cancel flag, nothing clears it before the session is
    freed, no new job is queued, and every job that has not begun to generate ends
    cancelled, in every continuation.
   */
  lemma {:induction false} DoomedRun(s: State, steps: seq<Step>)
    requires Inv(s) && Doomed(s) && IsRun(s, steps)
    ensures var t := After(s, steps);
      && Doomed(t) && (t.live ==> t.cancelled)
      && forall id :: id in t.jobs ==> id in s.jobs && (WillCancel(s.jobs[id]) ==> WillCancel(t.jobs[id]))
    decreases |steps|
  {
    if steps != [] {
      StepKeepsInv(s, steps[0]);
      DoomStep(s, steps[0]);
      DoomedRun(Apply(s, steps[0]), steps[1..]);
    }
  }

  /** The step after `CallDestroy` or `Finalize` dooms the session, so the above holds from there on. */
  lemma DestroyDooms(s: State, st: Step)
    requires Inv(s) && Enabled(s, st) && st.BeginDestroy?
    ensures Doomed(Apply(s, st))
  {
  }

  /** No thread waits forever for another: if anything is unfinished, some thread other than an idle JavaScript can go on. */
  lemma NoDeadlock(s: State)
    requires Inv(s)
    requires s.js != Idle || exists id :: id in s.jobs && !s.jobs[id].Returned?
    ensures exists st :: Enabled(s, st) && (s.js == Idle ==> ByWorkerThread(st))
  {
    if s.mutex.ByWorker? {
      var id := s.mutex.id;
      match s.jobs[id] {
        case Checking => assert Enabled(s, CheckHolder(id));
        case Entering => assert Enabled(s, EnterPrompt(id));
        case Generating => assert Enabled(s, Generate(id));
      }
    } else if s.js == Idle {
      var id :| id in s.jobs && !s.jobs[id].Returned?;
      assert Enabled(s, LockWorker(id));
    } else {
      JsGoesOn(s);
    }
  }

  lemma JsGoesOn(s: State)
    requires Inv(s) && s.js != Idle && !s.mutex.ByWorker?
    ensures exists st :: Enabled(s, st)
  {
    match s.js {
      case PromptRead => assert Enabled(s, ResetCancel);
      case PromptReset =>
        var id := FreshId(s.jobs.Keys);
        assert Enabled(s, Queue(id));
      case CancelRead => assert Enabled(s, StoreCancel);
      case UsageRead => assert Enabled(s, LoadUsage);
      case MeasureWaits => assert Enabled(s, LockMeasure);
      case MeasureLocked => assert Enabled(s, Measure);
      case DestroyStarts(_) => assert Enabled(s, BeginDestroy);
      case DestroyWaits(_) => assert Enabled(s, LockDestroy);
      case DestroyLocked(_) => assert Enabled(s, FreeSession);
      case DeletesHolder => assert Enabled(s, DeleteHolder);
    }
  }

  lemma FreshId(ids: set<nat>) returns (id: nat)
    ensures id !in ids
  {
    var bound := Above(ids);
    id := bound;
  }

  lemma {:induction false} Above(ids: set<nat>) returns (bound: nat)
    ensures forall id :: id in ids ==> id < bound
    decreases |ids|
  {
    if ids == {} {
      bound := 0;
    } else {
      var x :| x in ids;
      var b := Above(ids - {x});
      bound := if b > x then b else x + 1;
      assert forall id :: id in ids ==> id == x || id in ids - {x};
    }
  }
}

/**
  What the session protocol promises beyond safety: when a cancellation holds, that a
  running generation and the destruction come to their end, and that everything can be
  wound up.
 */
module SessionLaws {
  import opened SessionProtocol

  /** How far a job is from its return. */
  function PhaseRank(p: Phase): nat {
    match p
    case Queued => 4
    case Checking => 3
    case Entering => 2
    case Generating => 1
    case Returned(_) => 0
  }

  // ---- Cancelling a generation --------------------------------------------

  /** The flag stays set as long as no prompt resets it. */
  lemma FlagStays(s: State, st: Step)
    requires s.cancelled && Enabled(s, st) && !st.ResetCancel?
    ensures Apply(s, st).cancelled
  {
    if ByWorkerThread(st) {
      WorkersKeepFlag(s, st);
    }
  }

  lemma WorkersKeepFlag(s: State, st: Step)
    requires Enabled(s, st) && ByWorkerThread(st)
    ensures Apply(s, st).cancelled == s.cancelled && Apply(s, st).destroyed == s.destroyed
  {
    match st {
      case LockWorker(_) =>
      case CheckHolder(_) =>
      case EnterPrompt(_) =>
      case Generate(_) =>
      case Finish(_, _) =>
    }
  }

  lemma TurnCancels(s: State, id: nat)
    requires s.cancelled && JobIs(s, id, Generating)
    ensures Enabled(s, Generate(id)) && JobIs(Apply(s, Generate(id)), id, Returned(Cancelled))
  {
  }

  lemma FirstStep(s: State, st: Step)
    requires Enabled(s, st)
    ensures IsRun(s, [st]) && After(s, [st]) == Apply(s, st)
  {
    assert [st][1..] == [];
  }

  /** Once the flag is set, and until a prompt resets it, a generation that takes another turn returns cancelled in that turn. */
  lemma {:induction false} TurnEndsCancelled(s: State, steps: seq<Step>, k: nat, id: nat)
    requires s.cancelled && IsRun(s, steps) && k < |steps| && steps[k] == Generate(id) && NoReset(steps[..k])
    ensures IsRun(s, steps[..k + 1]) && JobIs(After(s, steps[..k + 1]), id, Returned(Cancelled))
    decreases k
  {
    hide Apply, Enabled;
    if k == 0 {
      assert steps[..1] == [Generate(id)];
      assert JobIs(s, id, Generating) by { GenerateRuns(s, id); }
      TurnCancels(s, id);
      FirstStep(s, Generate(id));
    } else {
      var rest := steps[1..];
      assert steps[..k + 1][0] == steps[0] && steps[..k + 1][1..] == rest[..k] && rest[k - 1] == steps[k];
      assert steps[0] == steps[..k][0];
      FlagStays(s, steps[0]);
      NoResetBehind(steps[..k]);
      assert rest[..k - 1] == steps[..k][1..];
      TurnEndsCancelled(Apply(s, steps[0]), rest, k - 1, id);
    }
  }

  lemma NoResetBehind(steps: seq<Step>)
    requires steps != [] && NoReset(steps)
    ensures NoReset(steps[1..])
  {
    forall i | 0 <= i < |steps[1..]| ensures !steps[1..][i].ResetCancel? {
      assert steps[1..][i] == steps[i + 1];
    }
  }

  lemma GenerateRuns(s: State, id: nat)
    requires Enabled(s, Generate(id))
    ensures JobIs(s, id, Generating)
  {
  }

  /** From every state with the flag set some run returns a generating job cancelled. */
  lemma GenerationCanEnd(s: State, id: nat)
    requires s.cancelled && JobIs(s, id, Generating)
    ensures exists steps :: IsRun(s, steps) && JobIs(After(s, steps), id, Returned(Cancelled))
  {
    TurnCancels(s, id);
    FirstStep(s, Generate(id));
  }

  /** During the destruction no reset is needed to be ruled out: every further turn of a generation returns cancelled. */
  lemma DoomedTurn(s: State, steps: seq<Step>, k: nat, id: nat)
    requires Inv(s) && Doomed(s) && IsRun(s, steps) && k < |steps| && steps[k] == Generate(id)
    ensures IsRun(s, steps[..k + 1]) && JobIs(After(s, steps[..k + 1]), id, Returned(Cancelled))
  {
    hide Apply, Enabled, Doomed;
    PrefixRun(s, steps, k);
    var t := After(s, steps[..k]);
    RunKeepsInv(s, steps[..k]);
    DoomedRun(s, steps[..k]);
    GenerateRuns(t, id);
    assert t.live by { assert InPrompt(t.jobs[id]); }
    TurnCancels(t, id);
    FirstStep(t, Generate(id));
    RunAppend(s, steps[..k], [Generate(id)]);
    assert steps[..k] + [Generate(id)] == steps[..k + 1];
  }

  lemma {:induction false} PrefixRun(s: State, steps: seq<Step>, k: nat)
    requires IsRun(s, steps) && k < |steps|
    ensures IsRun(s, steps[..k]) && Enabled(After(s, steps[..k]), steps[k])
    decreases k
  {
    hide Apply, Enabled;
    if k > 0 {
      assert steps[..k][0] == steps[0] && steps[..k][1..] == steps[1..][..k - 1];
      PrefixRun(Apply(s, steps[0]), steps[1..], k - 1);
    }
  }

  /** A job that has not passed the check of the holder, or was turned away there. */
  predicate NotStarted(p: Phase) {
    p.Queued? || p.Checking? || p == Returned(Cancelled)
  }

  lemma NotStartedStep(s: State, st: Step, id: nat)
    requires s.destroyed && id in s.jobs && NotStarted(s.jobs[id]) && Enabled(s, st) && st != Complete(id)
    ensures var t := Apply(s, st); t.destroyed && id in t.jobs && NotStarted(t.jobs[id])
  {
    if ByWorkerThread(st) {
      match st {
        case LockWorker(_) =>
        case CheckHolder(_) =>
        case EnterPrompt(_) =>
        case Generate(_) =>
        case Finish(_, _) =>
      }
    }
  }

  /** From the call of `Destroy` on, before the flag is set, no job that waits or checks the holder ever starts its prompt. */
  lemma {:induction false} NoLateStart(s: State, steps: seq<Step>, id: nat)
    requires s.destroyed && id in s.jobs && NotStarted(s.jobs[id]) && IsRun(s, steps) && NotCompleted(steps, id)
    ensures var t := After(s, steps); t.destroyed && id in t.jobs && NotStarted(t.jobs[id])
    decreases |steps|
  {
    hide Apply, Enabled, NotStarted;
    if steps != [] {
      NotStartedStep(s, steps[0], id);
      NoLateStart(Apply(s, steps[0]), steps[1..], id);
    }
  }

  // ---- Destruction comes to its end ---------------------------------------

  /** Waiting for the mutex, the destruction can always go on to free the session. */
  lemma DestroyFrees(s: State) returns (steps: seq<Step>)
    requires Inv(s) && (s.js.DestroyWaits? || s.js.DestroyLocked?)
    ensures IsRun(s, steps)
    ensures var t := After(s, steps);
      !t.live && t.frees == 1 && t.js == AfterDestroy(s.js.final) && t.mutex == Free && t.holderLive == s.holderLive
      && t.jobs.Keys == s.jobs.Keys && t.reachable == s.reachable
    decreases if s.js.DestroyLocked? then 0 else if s.mutex == Free then 1 else 2
  {
    if s.js.DestroyLocked? {
      steps := [FreeSession];
      FirstStep(s, FreeSession);
    } else if s.mutex == Free {
      var t := Apply(s, LockDestroy);
      StepKeepsInv(s, LockDestroy);
      var more := DestroyFrees(t);
      steps := RunBefore(s, LockDestroy, more);
    } else {
      var id := s.mutex.id;
      var st := if s.jobs[id].Checking? then CheckHolder(id) else if s.jobs[id].Entering? then EnterPrompt(id) else Generate(id);
      StepKeepsInv(s, st);
      assert Apply(s, st) == Return(s, id, Cancelled);
      assert Apply(s, st).jobs.Keys == s.jobs.Keys;
      var more := DestroyFrees(Apply(s, st));
      steps := RunBefore(s, st, more);
    }
  }

  /** Whoever calls `Destroy` can see it through: the session is freed once, the handle and the jobs are still there. */
  lemma CallFrees(s: State) returns (steps: seq<Step>)
    requires Inv(s) && Enabled(s, CallDestroy)
    ensures steps != [] && steps[0] == CallDestroy && IsRun(s, steps)
    ensures var t := After(s, steps);
      t.destroyed && !t.live && t.frees == 1 && t.js == Idle && t.reachable && t.holderLive && t.jobs.Keys == s.jobs.Keys
  {
    StepKeepsInv(s, CallDestroy);
    if s.destroyed {
      steps := [CallDestroy];
      FirstStep(s, CallDestroy);
    } else {
      var begun := Apply(s, CallDestroy);
      StepKeepsInv(begun, BeginDestroy);
      var more := DestroyFrees(Apply(begun, BeginDestroy));
      DestroyedRun(Apply(begun, BeginDestroy), more);
      more := RunBefore(begun, BeginDestroy, more);
      steps := RunBefore(s, CallDestroy, more);
    }
  }

  lemma DestroyedStep(s: State, st: Step)
    requires s.destroyed && Enabled(s, st)
    ensures Apply(s, st).destroyed
  {
    if ByWorkerThread(st) {
      WorkersKeepFlag(s, st);
    }
  }

  lemma {:induction false} DestroyedRun(s: State, steps: seq<Step>)
    requires s.destroyed && IsRun(s, steps)
    ensures After(s, steps).destroyed
    decreases |steps|
  {
    hide Apply, Enabled;
    if steps != [] {
      DestroyedStep(s, steps[0]);
      DestroyedRun(Apply(s, steps[0]), steps[1..]);
    }
  }

  lemma RunBefore(s: State, st: Step, more: seq<Step>) returns (steps: seq<Step>)
    requires Enabled(s, st) && IsRun(Apply(s, st), more)
    ensures steps == [st] + more && IsRun(s, steps) && After(s, steps) == After(Apply(s, st), more)
  {
    steps := [st] + more;
    assert steps[1..] == more;
  }

  /** The finalizer can always free what is left: the session, unless that was destroyed before, and the holder. */
  lemma FinalizerFreesAll(s: State)
    requires Inv(s) && Enabled(s, Finalize)
    ensures exists steps :: IsRun(s, steps) &&
              var t := After(s, steps); !t.live && t.frees == 1 && !t.holderLive && t.js == Idle && t.jobs == map[]
  {
    var begun := Apply(s, Finalize);
    StepKeepsInv(s, Finalize);
    var waiting := Apply(begun, BeginDestroy);
    StepKeepsInv(begun, BeginDestroy);
    var more: seq<Step>;
    if begun.session {
      more := DestroyFrees(waiting);
      RunKeepsInv(waiting, more);
    } else {
      more := [];
    }
    var last := After(waiting, more);
    FirstStep(last, DeleteHolder);
    RunAppend(waiting, more, [DeleteHolder]);
    var all := RunBefore(begun, BeginDestroy, more + [DeleteHolder]);
    all := RunBefore(s, Finalize, all);
  }

  // ---- What the calls and the jobs do --------------------------------------

  /** What each call comes to when nothing interferes. */
  lemma CallsDo(s: State, id: nat)
    requires s.js == Idle && s.reachable && !s.destroyed && id !in s.jobs
    ensures Leads(s, [CallPrompt, ResetCancel, Queue(id)], s.(cancelled := false, jobs := s.jobs[id := Queued]))
    ensures Leads(s, [CallCancel, StoreCancel], s.(cancelled := true))
    ensures Leads(s, [CallUsage, LoadUsage], s)
    ensures s.mutex == Free ==> Leads(s, [CallMeasure, LockMeasure, Measure], s)
  {
    hide Enabled, Apply, Leads;
    PromptDoes(s, id);
    CancelDoes(s);
    UsageDoes(s);
    if s.mutex == Free { MeasureDoes(s); }
  }

  lemma PromptDoes(s: State, id: nat)
    requires s.js == Idle && s.reachable && !s.destroyed && id !in s.jobs
    ensures Leads(s, [CallPrompt, ResetCancel, Queue(id)], s.(cancelled := false, jobs := s.jobs[id := Queued]))
  {
    var a := s.(js := PromptRead);
    var b := s.(cancelled := false, js := PromptReset);
    var c := s.(cancelled := false, jobs := s.jobs[id := Queued]);
    assert Does(s, CallPrompt, a) && Does(a, ResetCancel, b) && Does(b, Queue(id), c);
    hide Does;
    Three(s, CallPrompt, a, ResetCancel, b, Queue(id), c);
  }

  lemma CancelDoes(s: State)
    requires s.js == Idle && s.reachable && !s.destroyed
    ensures Leads(s, [CallCancel, StoreCancel], s.(cancelled := true))
  {
    var a, b := s.(js := CancelRead), s.(cancelled := true);
    assert Does(s, CallCancel, a) && Does(a, StoreCancel, b);
    hide Does;
    Two(s, CallCancel, a, StoreCancel, b);
  }

  lemma UsageDoes(s: State)
    requires s.js == Idle && s.reachable && !s.destroyed
    ensures Leads(s, [CallUsage, LoadUsage], s)
  {
    var a := s.(js := UsageRead);
    assert Does(s, CallUsage, a) && Does(a, LoadUsage, s);
    hide Does;
    Two(s, CallUsage, a, LoadUsage, s);
  }

  lemma MeasureDoes(s: State)
    requires s.js == Idle && s.reachable && !s.destroyed && s.mutex == Free
    ensures Leads(s, [CallMeasure, LockMeasure, Measure], s)
  {
    var a, b := s.(js := MeasureWaits), s.(mutex := ByJs, js := MeasureLocked);
    assert Does(s, CallMeasure, a) && Does(a, LockMeasure, b) && Does(b, Measure, s);
    hide Does;
    Three(s, CallMeasure, a, LockMeasure, b, Measure, s);
  }

  /** What the worker comes to when nothing interferes: the job returns with its own outcome and leaves the mutex free. */
  lemma JobDoes(s: State, id: nat, status: Status)
    requires JobIs(s, id, Queued) && s.mutex == Free && !s.destroyed && s.session && !s.cancelled && status != Cancelled
    ensures Leads(s, [LockWorker(id), CheckHolder(id), EnterPrompt(id), Generate(id), Finish(id, status)],
                  s.(jobs := s.jobs[id := Returned(status)]))
  {
    var a := s.(jobs := s.jobs[id := Checking], mutex := ByWorker(id));
    var b := a.(jobs := s.jobs[id := Entering]);
    var c := a.(jobs := s.jobs[id := Generating]);
    var d := s.(jobs := s.jobs[id := Returned(status)]);
    hide Enabled, Apply, Does, Leads;
    Locks(s, id);
    OnTo(s, a, id, Checking, Entering, CheckHolder(id));
    OnTo(s, a, id, Entering, Generating, EnterPrompt(id));
    GoesOn(c, id);
    Finishes(s, c, id, status);
    Three(b, EnterPrompt(id), c, Generate(id), c, Finish(id, status), d);
    assert a.(jobs := s.jobs[id := Checking]) == a;
    var last := [EnterPrompt(id), Generate(id), Finish(id, status)];
    One(a, CheckHolder(id), b, last, d);
    One(s, LockWorker(id), a, [CheckHolder(id)] + last, d);
    assert [LockWorker(id)] + ([CheckHolder(id)] + last) == [LockWorker(id), CheckHolder(id), EnterPrompt(id), Generate(id), Finish(id, status)];
  }

  lemma Locks(s: State, id: nat)
    requires JobIs(s, id, Queued) && s.mutex == Free
    ensures Does(s, LockWorker(id), s.(jobs := s.jobs[id := Checking], mutex := ByWorker(id)))
  {
  }

  lemma GoesOn(s: State, id: nat)
    requires JobIs(s, id, Generating) && !s.cancelled
    ensures Does(s, Generate(id), s)
  {
  }

  lemma OnTo(s: State, a: State, id: nat, p: Phase, q: Phase, st: Step)
    requires !s.destroyed && s.session && !s.cancelled && a == s.(jobs := s.jobs[id := Checking], mutex := ByWorker(id))
    requires (p == Checking && q == Entering && st == CheckHolder(id)) || (p == Entering && q == Generating && st == EnterPrompt(id))
    ensures Does(a.(jobs := s.jobs[id := p]), st, a.(jobs := s.jobs[id := q]))
  {
    assert s.jobs[id := p][id := q] == s.jobs[id := q];
  }

  lemma Finishes(s: State, c: State, id: nat, status: Status)
    requires s.mutex == Free && status != Cancelled && c == s.(jobs := s.jobs[id := Generating], mutex := ByWorker(id))
    ensures Does(c, Finish(id, status), s.(jobs := s.jobs[id := Returned(status)]))
  {
    assert s.jobs[id := Generating][id := Returned(status)] == s.jobs[id := Returned(status)];
  }

  predicate Leads(s: State, steps: seq<Step>, t: State) {
    IsRun(s, steps) && After(s, steps) == t
  }

  predicate Does(s: State, st: Step, t: State) {
    Enabled(s, st) && Apply(s, st) == t
  }

  lemma One(s: State, st: Step, t: State, more: seq<Step>, u: State)
    requires Does(s, st, t) && Leads(t, more, u)
    ensures Leads(s, [st] + more, u)
  {
    assert ([st] + more)[1..] == more;
  }

  lemma Two(s: State, x: Step, t: State, y: Step, u: State)
    requires Does(s, x, t) && Does(t, y, u)
    ensures Leads(s, [x, y], u)
  {
    assert Leads(u, [], u);
    One(t, y, u, [], u);
    One(s, x, t, [y], u);
    assert [y] + [] == [y] && [x] + [y] == [x, y];
  }

  lemma Three(s: State, x: Step, t: State, y: Step, u: State, z: Step, v: State)
    requires Does(s, x, t) && Does(t, y, u) && Does(u, z, v)
    ensures Leads(s, [x, y, z], v)
  {
    hide Does, Leads;
    Two(t, y, u, z, v);
    One(s, x, t, [y, z], v);
    assert [x] + [y, z] == [x, y, z];
  }

  // ---- Everything can be wound up -----------------------------------------

  /** How far the JavaScript thread is from being idle. */
  function StepsToIdle(js: Js): nat {
    match js
    case Idle => 0
    case DestroyStarts(_) => 4
    case DestroyWaits(_) | MeasureWaits => 3
    case DestroyLocked(_) | MeasureLocked => 2
    case _ => 1
  }

  /** How far the worker that holds the mutex is from releasing it. */
  function HolderRank(s: State): nat {
    if s.mutex.ByWorker? && s.mutex.id in s.jobs then PhaseRank(s.jobs[s.mutex.id]) else 0
  }

  /** The step of a worker inside its job that leads to its return. */
  function WorkOn(id: nat, p: Phase): Step {
    match p
    case Queued => LockWorker(id)
    case Checking => CheckHolder(id)
    case Entering => EnterPrompt(id)
    case Generating => Finish(id, Failed)
    case Returned(_) => Complete(id)
  }

  lemma WorkerOn(s: State)
    requires Inv(s) && s.mutex.ByWorker?
    ensures s.mutex.id in s.jobs && HoldsMutex(s.jobs[s.mutex.id])
    ensures var st := WorkOn(s.mutex.id, s.jobs[s.mutex.id]);
      Enabled(s, st) && Apply(s, st).js == s.js && Apply(s, st).holderLive == s.holderLive && HolderRank(Apply(s, st)) < HolderRank(s)
  {
    match s.jobs[s.mutex.id] {
      case Checking =>
      case Entering =>
      case Generating =>
    }
  }

  /** The JavaScript thread's way back, when no worker holds what it waits for. */
  function Back(js: Js, unused: nat): Step
    requires js != Idle
  {
    match js
    case PromptRead => RejectInput
    case PromptReset => Queue(unused)
    case CancelRead => StoreCancel
    case UsageRead => LoadUsage
    case MeasureWaits => LockMeasure
    case MeasureLocked => Measure
    case DestroyStarts(_) => BeginDestroy
    case DestroyWaits(_) => LockDestroy
    case DestroyLocked(_) => FreeSession
    case DeletesHolder => DeleteHolder
  }

  lemma BackIsCloser(s: State, unused: nat)
    requires Inv(s) && s.js != Idle && unused !in s.jobs && (s.js.MeasureWaits? || s.js.DestroyWaits? ==> s.mutex == Free)
    ensures var st := Back(s.js, unused);
      && Enabled(s, st) && StepsToIdle(Apply(s, st).js) < StepsToIdle(s.js)
      && (s.holderLive ==> Apply(s, st).holderLive || (!s.live && s.jobs == map[] && st == DeleteHolder))
  {
    match s.js {
      case PromptRead =>
      case PromptReset =>
      case CancelRead =>
      case UsageRead =>
      case MeasureWaits =>
      case MeasureLocked =>
      case DestroyStarts(_) =>
      case DestroyWaits(_) =>
      case DestroyLocked(_) =>
      case DeletesHolder =>
    }
  }

  lemma DeletedIsIdle(s: State)
    requires s.js.DeletesHolder?
    ensures Enabled(s, DeleteHolder) && Apply(s, DeleteHolder) == s.(holderLive := false, js := Idle)
  {
  }

  /** Every call can return: the JavaScript thread can always become idle. */
  lemma {:induction false} JsReturns(s: State) returns (steps: seq<Step>)
    requires Inv(s) && s.holderLive
    ensures IsRun(s, steps) && After(s, steps).js == Idle
    ensures After(s, steps).holderLive || (!After(s, steps).live && After(s, steps).jobs == map[])
    decreases StepsToIdle(s.js), HolderRank(s)
  {
    hide Inv, Enabled, Apply, HolderRank, StepsToIdle, WorkOn, Back;
    if s.js == Idle {
      steps := [];
    } else if (s.js.MeasureWaits? || s.js.DestroyWaits?) && s.mutex.ByWorker? {
      WorkerOn(s);
      var st := WorkOn(s.mutex.id, s.jobs[s.mutex.id]);
      StepKeepsInv(s, st);
      var more := JsReturns(Apply(s, st));
      steps := RunBefore(s, st, more);
    } else {
      var unused := FreshId(s.jobs.Keys);
      NotByJs(s);
      BackIsCloser(s, unused);
      var st := Back(s.js, unused);
      StepKeepsInv(s, st);
      if st == DeleteHolder {
        assert s.js.DeletesHolder? by { OnlyDelete(s.js, unused); }
        DeletedIsIdle(s);
        Deleted(s);
        FirstStep(s, st);
        steps := [st];
      } else {
        var more := JsReturns(Apply(s, st));
        steps := RunBefore(s, st, more);
      }
    }
  }

  lemma NotByJs(s: State)
    requires Inv(s)
    ensures (s.js.MeasureWaits? || s.js.DestroyWaits?) && !s.mutex.ByWorker? ==> s.mutex == Free
  {
  }

  lemma OnlyDelete(js: Js, unused: nat)
    requires js != Idle && Back(js, unused) == DeleteHolder
    ensures js.DeletesHolder?
  {
  }

  lemma Deleted(s: State)
    requires Inv(s) && s.js.DeletesHolder?
    ensures !s.live && s.jobs == map[]
  {
  }

  /** What a job's end leaves as it was. */
  predicate SameSession(s: State, t: State) {
    t.js == s.js && t.holderLive == s.holderLive && t.live == s.live && t.reachable == s.reachable
  }

  lemma WorkStep(s: State, id: nat)
    requires Inv(s) && s.js == Idle && id in s.jobs && (s.mutex == Free || s.mutex == ByWorker(id))
    ensures var st := WorkOn(id, s.jobs[id]);
      && Enabled(s, st) && SameSession(s, Apply(s, st)) && Apply(s, st).jobs - {id} == s.jobs - {id}
      && (Apply(s, st).mutex == Free || Apply(s, st).mutex == ByWorker(id))
      && if s.jobs[id].Returned? then Apply(s, st).jobs == s.jobs - {id} && Apply(s, st).mutex == Free
         else id in Apply(s, st).jobs && PhaseRank(Apply(s, st).jobs[id]) < PhaseRank(s.jobs[id])
  {
    match s.jobs[id] {
      case Queued =>
      case Checking =>
      case Entering =>
      case Generating =>
      case Returned(_) =>
    }
  }

  /** A job that nothing keeps from the mutex can return and be completed. */
  lemma {:induction false} JobEnds(s: State, id: nat) returns (steps: seq<Step>)
    requires Inv(s) && s.js == Idle && id in s.jobs && (s.mutex == Free || s.mutex == ByWorker(id))
    ensures IsRun(s, steps) && SameSession(s, After(s, steps)) && After(s, steps).jobs == s.jobs - {id}
    decreases PhaseRank(s.jobs[id])
  {
    hide Inv, Enabled, Apply, WorkOn;
    WorkStep(s, id);
    var st := WorkOn(id, s.jobs[id]);
    StepKeepsInv(s, st);
    if s.jobs[id].Returned? {
      FirstStep(s, st);
      steps := [st];
    } else {
      var more := JobEnds(Apply(s, st), id);
      steps := RunBefore(s, st, more);
    }
  }

  lemma IdleMutex(s: State)
    requires Inv(s) && s.js == Idle
    ensures s.mutex == Free || (s.mutex.ByWorker? && s.mutex.id in s.jobs)
  {
  }

  /** All jobs can end. */
  lemma {:induction false} AllJobsEnd(s: State) returns (steps: seq<Step>)
    requires Inv(s) && s.js == Idle
    ensures IsRun(s, steps) && SameSession(s, After(s, steps)) && After(s, steps).jobs == map[]
    decreases |s.jobs|
  {
    hide Inv, Enabled, Apply;
    if s.jobs == map[] {
      steps := [];
    } else {
      IdleMutex(s);
      var id :| id in s.jobs && (s.mutex.ByWorker? ==> id == s.mutex.id);
      var first := JobEnds(s, id);
      var t := After(s, first);
      RunKeepsInv(s, first);
      assert t.jobs == s.jobs - {id} && |s.jobs - {id}| < |s.jobs| by { OneLess(s.jobs, id); }
      var more := AllJobsEnd(t);
      RunAppend(s, first, more);
      steps := first + more;
    }
  }

  lemma OneLess(jobs: map<nat, Phase>, id: nat)
    requires id in jobs
    ensures |jobs - {id}| < |jobs|
  {
    var rest := jobs - {id};
    assert jobs.Keys == rest.Keys + {id};
    assert |jobs.Keys| == |rest.Keys| + 1;
  }

  /** From every state before the holder is deleted, everything can come to its end: the jobs, the session and the holder. */
  lemma WindsUp(s: State)
    requires Inv(s) && s.holderLive
    ensures exists steps :: IsRun(s, steps) && var t := After(s, steps); !t.live && !t.holderLive && t.jobs == map[] && t.js == Idle
  {
    hide Inv, Enabled, Apply;
    var first := JsReturns(s);
    var t := After(s, first);
    RunKeepsInv(s, first);
    if t.holderLive {
      var second := AllJobsEnd(t);
      var u := After(t, second);
      RunKeepsInv(t, second);
      var third := Abandon(u);
      RunAppend(t, second, third);
      RunAppend(s, first, second + third);
    }
  }

  /** An idle session without jobs is dropped and finalized. */
  lemma Abandon(s: State) returns (steps: seq<Step>)
    requires Inv(s) && s.js == Idle && s.holderLive && s.jobs == map[]
    ensures IsRun(s, steps)
    ensures var t := After(s, steps); !t.live && !t.holderLive && t.jobs == map[] && t.js == Idle
    decreases s.reachable
  {
    if s.reachable {
      StepKeepsInv(s, DropHandle);
      var more := Abandon(Apply(s, DropHandle));
      steps := RunBefore(s, DropHandle, more);
    } else {
      FinalizerFreesAll(s);
      steps :| IsRun(s, steps) && var t := After(s, steps); !t.live && t.frees == 1 && !t.holderLive && t.js == Idle && t.jobs == map[];
    }
  }

  // ---- Cancel without Destroy ---------------------------------------------

  lemma CancelWorkerStep(s: State, st: Step, id: nat)
    requires s.cancelled && id in s.jobs && WillCancel(s.jobs[id]) && Enabled(s, st) && ByWorkerThread(st)
    ensures var t := Apply(s, st);
      t.cancelled && id in t.jobs && WillCancel(t.jobs[id])
  {
    match st {
      case LockWorker(_) =>
      case CheckHolder(_) =>
      case EnterPrompt(_) =>
      case Generate(_) =>
      case Finish(_, _) =>
    }
  }

  lemma CancelStep(s: State, st: Step, id: nat)
    requires s.cancelled && id in s.jobs && WillCancel(s.jobs[id])
    requires Enabled(s, st) && !st.ResetCancel? && st != Complete(id)
    ensures var t := Apply(s, st);
      t.cancelled && id in t.jobs && WillCancel(t.jobs[id])
  {
    if ByWorkerThread(st) {
      CancelWorkerStep(s, st, id);
    }
  }

  /** A cancelled job that has not begun to generate ends cancelled as long as no later prompt resets the flag. */
  lemma {:induction false} CancelHolds(s: State, steps: seq<Step>, id: nat)
    requires Inv(s) && s.cancelled && id in s.jobs && WillCancel(s.jobs[id])
    requires IsRun(s, steps) && NoReset(steps) && (forall i :: 0 <= i < |steps| ==> steps[i] != Complete(id))
    ensures var t := After(s, steps);
      t.cancelled && id in t.jobs && WillCancel(t.jobs[id])
    decreases |steps|
  {
    if steps != [] {
      hide Apply, Enabled, Inv, WillCancel;
      StepKeepsInv(s, steps[0]);
      CancelStep(s, steps[0], id);
      CancelHolds(Apply(s, steps[0]), steps[1..], id);
    }
  }

  /** A job that has not begun to generate and is not through. */
  predicate Waits(p: Phase) {
    p.Queued? || p.Checking? || p.Entering?
  }

  /** Some course of events lets the job succeed. */
  ghost predicate CanSucceed(s: State, id: nat) {
    exists steps :: IsRun(s, steps) && NotCompleted(steps, id) && JobIs(After(s, steps), id, Returned(Succeeded))
  }

  /** A later prompt can still get in front of the job. */
  predicate Overtakable(s: State, id: nat)
    requires id in s.jobs
  {
    !s.destroyed && s.reachable && !(HoldsMutex(s.jobs[id]) && s.js.MeasureWaits?)
  }

  /** The cancelled job has returned so, or waits where no later prompt can get in front of it. */
  predicate Settled(s: State, id: nat) {
    id in s.jobs && (s.jobs[id] == Returned(Cancelled) || (s.cancelled && Waits(s.jobs[id]) && !Overtakable(s, id)))
  }

  lemma {:induction false} SettledRun(s: State, steps: seq<Step>, id: nat)
    requires Inv(s) && Settled(s, id) && IsRun(s, steps) && NotCompleted(steps, id)
    ensures Settled(After(s, steps), id)
    decreases |steps|
  {
    if steps != [] {
      StepKeepsInv(s, steps[0]);
      SettledStep(s, steps[0], id);
      SettledRun(Apply(s, steps[0]), steps[1..], id);
    }
  }

  lemma SettledJsStep(s: State, st: Step, id: nat)
    requires MutexInv(s) && JsInv(s) && Settled(s, id) && Enabled(s, st) && !ByWorkerThread(st) && st != Complete(id)
    ensures Settled(Apply(s, st), id)
  {
    match st {
      case CallPrompt =>
      case RejectInput =>
      case ResetCancel =>
      case Queue(_) =>
      case CallCancel =>
      case StoreCancel =>
      case CallUsage =>
      case LoadUsage =>
      case CallMeasure =>
      case LockMeasure =>
      case Measure =>
      case CallDestroy =>
      case Finalize =>
      case BeginDestroy =>
      case LockDestroy =>
      case FreeSession =>
      case DeleteHolder =>
      case DropHandle =>
      case Complete(_) =>
    }
  }

  lemma SettledWorkerStep(s: State, st: Step, id: nat)
    requires Settled(s, id) && Enabled(s, st) && ByWorkerThread(st)
    ensures Settled(Apply(s, st), id)
  {
    match st {
      case LockWorker(_) =>
      case CheckHolder(_) =>
      case EnterPrompt(_) =>
      case Generate(_) =>
      case Finish(_, _) =>
    }
  }

  lemma SettledStep(s: State, st: Step, id: nat)
    requires Inv(s) && Settled(s, id) && Enabled(s, st) && st != Complete(id)
    ensures Settled(Apply(s, st), id)
  {
    if ByWorkerThread(st) {
      SettledWorkerStep(s, st, id);
    } else {
      SettledJsStep(s, st, id);
    }
  }

  // How a later prompt gets in front of the job.

  /** How far the JavaScript thread is from resetting the flag. */
  function JsRank(js: Js): nat {
    match js
    case MeasureWaits => 4
    case MeasureLocked | CancelRead | UsageRead | PromptReset => 3
    case Idle => 2
    case _ => 1
  }

  function OwnerRank(s: State, id: nat): nat {
    if s.mutex.ByWorker? && s.mutex.id != id && s.mutex.id in s.jobs then PhaseRank(s.jobs[s.mutex.id]) else 0
  }

  /** The next step towards success: let the mutex go, reset the flag, then run the job. */
  lemma NextStep(s: State, id: nat) returns (st: Step)
    requires Inv(s) && !s.destroyed && s.reachable && id in s.jobs && !s.jobs[id].Returned?
    requires s.cancelled ==> Waits(s.jobs[id]) && Overtakable(s, id)
    ensures Enabled(s, st) && st != Complete(id)
    ensures var t := Apply(s, st);
      if s.jobs[id].Generating? then st == Finish(id, Succeeded)
      else
        && !t.destroyed && t.reachable && id in t.jobs && !t.jobs[id].Returned?
        && (t.cancelled ==> s.cancelled && Waits(t.jobs[id]) && Overtakable(t, id))
        && (!(s.cancelled && !t.cancelled) ==>
              PhaseRank(t.jobs[id]) < PhaseRank(s.jobs[id])
              || (t.jobs[id] == s.jobs[id]
                  && (OwnerRank(t, id) < OwnerRank(s, id)
                      || (OwnerRank(t, id) == OwnerRank(s, id) && JsRank(t.js) < JsRank(s.js)))))
  {
    if s.mutex.ByWorker? && s.mutex.id != id {
      var w := s.mutex.id;
      st := if s.jobs[w].Checking? then CheckHolder(w) else if s.jobs[w].Entering? then EnterPrompt(w) else Finish(w, Failed);
    } else if s.cancelled {
      st := Approach(s, id);
    } else if s.js.MeasureLocked? {
      st := Measure;
    } else {
      st := if s.jobs[id].Queued? then LockWorker(id) else if s.jobs[id].Checking? then CheckHolder(id)
            else if s.jobs[id].Entering? then EnterPrompt(id) else Finish(id, Succeeded);
    }
  }

  /** The JavaScript thread's step towards the reset. */
  lemma Approach(s: State, id: nat) returns (st: Step)
    requires Inv(s) && s.cancelled && id in s.jobs && Waits(s.jobs[id]) && Overtakable(s, id)
    requires s.mutex.ByWorker? ==> s.mutex.id == id
    ensures Enabled(s, st) && st != Complete(id)
    ensures var t := Apply(s, st);
      && !t.destroyed && t.reachable && id in t.jobs && t.jobs[id] == s.jobs[id] && Overtakable(t, id)
      && OwnerRank(t, id) == 0 && (t.cancelled ==> JsRank(t.js) < JsRank(s.js))
  {
    match s.js {
      case Idle => st := CallPrompt;
      case PromptRead => st := ResetCancel;
      case PromptReset =>
        var unused := FreshId(s.jobs.Keys);
        st := Queue(unused);
      case CancelRead => st := StoreCancel;
      case UsageRead => st := LoadUsage;
      case MeasureWaits => st := LockMeasure;
      case MeasureLocked => st := Measure;
    }
  }

  lemma {:induction false} Overtake(s: State, id: nat) returns (steps: seq<Step>)
    requires Inv(s) && !s.destroyed && s.reachable && id in s.jobs && !s.jobs[id].Returned?
    requires s.cancelled ==> Waits(s.jobs[id]) && Overtakable(s, id)
    ensures IsRun(s, steps) && NotCompleted(steps, id) && JobIs(After(s, steps), id, Returned(Succeeded))
    decreases s.cancelled, PhaseRank(s.jobs[id]), OwnerRank(s, id), JsRank(s.js)
  {
    hide Inv, Apply, Enabled, Overtakable, OwnerRank, JsRank;
    var st := NextStep(s, id);
    var t := Apply(s, st);
    if s.jobs[id].Generating? {
      steps := [st];
      Finished(s, id);
    } else {
      StepKeepsInv(s, st);
      var more := Overtake(t, id);
      steps := [st] + more;
      assert steps[1..] == more;
    }
  }

  lemma Finished(s: State, id: nat)
    requires JobIs(s, id, Generating)
    ensures Enabled(s, Finish(id, Succeeded)) && IsRun(s, [Finish(id, Succeeded)])
    ensures JobIs(After(s, [Finish(id, Succeeded)]), id, Returned(Succeeded))
  {
    assert [Finish(id, Succeeded)][1..] == [];
  }

  /**
    When a cancelled job that has not begun to generate may succeed all the same: exactly
    when the session is not being destroyed, JavaScript still holds it, and the job does
    not hold the mutex while the JavaScript thread waits for it. Otherwise, in every run,
    it stays on its way to ending cancelled: when it returns, it returns so.
   */
  lemma CancelExactly(s: State, id: nat)
    requires Inv(s) && s.cancelled && id in s.jobs && Waits(s.jobs[id])
    ensures CanSucceed(s, id) <==> Overtakable(s, id)
    ensures !Overtakable(s, id) ==> forall steps :: IsRun(s, steps) && NotCompleted(steps, id) ==> EndsCancelled(After(s, steps), id)
  {
    if Overtakable(s, id) {
      var steps := Overtake(s, id);
    } else {
      forall steps | IsRun(s, steps) && NotCompleted(steps, id)
        ensures EndsCancelled(After(s, steps), id)
      {
        SettledRun(s, steps, id);
      }
    }
  }

  /** The job waits, or has returned cancelled. */
  predicate EndsCancelled(s: State, id: nat) {
    id in s.jobs && WillCancel(s.jobs[id])
  }

  /** `prompt`, `cancel`, `prompt`: the second prompt's reset erases the cancellation of the first, which then succeeds. */
  lemma CancelIsLost()
    ensures exists steps, at ::
      && IsRun(Initial(), steps) && 0 < at < |steps| && steps[at] == StoreCancel
      && IsRun(Initial(), steps[..at + 1]) && JobIs(After(Initial(), steps[..at + 1]), 1, Queued)
      && JobIs(After(Initial(), steps), 1, Returned(Succeeded))
  {
    var before := QueueAndCancel();
    var s := After(Initial(), before);
    RunKeepsInv(Initial(), before);
    CancelExactly(s, 1);
    var later :| IsRun(s, later) && NotCompleted(later, 1) && JobIs(After(s, later), 1, Returned(Succeeded));
    var steps := before + later;
    assert steps[..5] == before && steps[4] == StoreCancel && |later| > 0;
    RunAppend(Initial(), before, later);
  }

  lemma QueueAndCancel() returns (steps: seq<Step>)
    ensures |steps| == 5 && steps[4] == StoreCancel && IsRun(Initial(), steps)
    ensures After(Initial(), steps) == Initial().(cancelled := true, jobs := map[1 := Queued])
  {
    var s := Initial();
    steps := [];
    s, steps := RunStep(Initial(), steps, CallPrompt);
    s, steps := RunStep(Initial(), steps, ResetCancel);
    s, steps := RunStep(Initial(), steps, Queue(1));
    s, steps := RunStep(Initial(), steps, CallCancel);
    s, steps := RunStep(Initial(), steps, StoreCancel);
  }

  lemma RunStep(s: State, steps: seq<Step>, st: Step) returns (t: State, more: seq<Step>)
    requires IsRun(s, steps) && Enabled(After(s, steps), st)
    ensures more == steps + [st] && IsRun(s, more) && t == After(s, more) == Apply(After(s, steps), st)
  {
    more := steps + [st];
    RunAppend(s, steps, [st]);
    t := After(s, more);
  }

  lemma {:induction false} RunAppend(s: State, a: seq<Step>, b: seq<Step>)
    requires IsRun(s, a) && IsRun(After(s, a), b)
    ensures IsRun(s, a + b) && After(s, a + b) == After(After(s, a), b)
    decreases |a|
  {
    if a == [] {
      assert a + b == b;
    } else {
      assert (a + b)[0] == a[0] && (a + b)[1..] == a[1..] + b;
      RunAppend(Apply(s, a[0]), a[1..], b);
    }
  }
}

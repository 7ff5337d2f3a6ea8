/** Closing a model against native work that runs without the global VM lock: `active_ops`,
    `model_close`, the protected job, the fiber worker and the ids run of static_embeddings.c.

    Threads take steps; a thread gives the lock up only where the code releases it or where Ruby code runs:
    between calls, in the interrupt checks on entry to a call without the lock and behind it, and in the
    `to_int` of an argument. A second asynchronous exception may be delivered while `fiber_worker_ensure`
    waits for the worker it has killed.
  */
module CloseProtocol {

  datatype Kind = Batch | Ids | Warmup

  /** Where a calling thread is. `Region` marks the part between `active_ops++` and `active_ops--`. */
  datatype Pc =
    | Outside
    | Checked(kind: Kind)              // get_model has seen the model open
    | Retrying                         // the batch loop goes round again, without asking get_model
    | Staged(kind: Kind)               // the job's buffers are allocated
    | Calling(kind: Kind, staged: bool) // NUM2ULL runs a to_int, before or after the buffers are allocated
    | Protected(kind: Kind)            // active_ops counts the job
    | Inline(kind: Kind)               // native work under the lock
    | Native(kind: Kind)               // native work without the lock
    | Returned(kind: Kind)             // the work has ended, the lock is not back yet
    | Joining                          // waiting for the fiber worker
    | KillJoining                      // waiting for it in the ensure clause, after cancelling and killing it
    | CheckingInts                     // rb_thread_check_ints, which may switch threads or raise
    | Unwinding(kind: Kind, raised: bool)
    | Released(kind: Kind, raised: bool)

  datatype Worker = NoWorker | Created | Running | Finished | Dead

  datatype Thread = Thread(pc: Pc, buffer: bool, worker: Worker)

  datatype Lock = Free | HeldBy(t: nat)

  datatype State = State(open: bool, activeOps: int, lock: Lock, threads: seq<Thread>)

  datatype Step =
    | Acquire | Release | Begin(kind: Kind) | Close | Convert | ConvertDone(raised: bool)
    | Stage | Protect | Raise | RunInline | InlineDone
    | EnterNative | NativeReturn | Resume(raised: bool) | IntsChecked(raised: bool)
    | Spawn | WorkerStart | WorkerReturn | WorkerExit | Joined(raised: bool) | Interrupt | KillJoined | Break
    | Unwind | Leave(again: bool)

  datatype Action = Action(t: nat, step: Step)

  /** Points where a thread may hand the lock over and take it back without changing anything. */
  predicate MaySwitch(pc: Pc) {
    pc == Outside || pc.Calling? || pc.Protected? || pc == CheckingInts || (pc.Released? && pc.kind == Ids)
  }

  /** Where an argument is converted: `resolve_max_tokens`, the cap loop and the id loop. */
  predicate MayConvert(pc: Pc) { (pc.Checked? && pc.kind != Warmup) || pc == Staged(Ids) }

  predicate Enabled(s: State, a: Action) {
    a.t < |s.threads| &&
    var th := s.threads[a.t];
    var mine, free := s.lock == HeldBy(a.t), s.lock == Free;
    match a.step
    case Acquire => free && MaySwitch(th.pc)
    case Release => mine && MaySwitch(th.pc)
    case Begin(_) => mine && th.pc == Outside
    case Close => mine && (th.pc == Outside || th.pc.Calling?)
    case Convert => mine && MayConvert(th.pc)
    case ConvertDone(_) => mine && th.pc.Calling?
    case Stage => mine && (th.pc.Checked? || th.pc == Retrying)
    case Protect => mine && th.pc.Staged?
    case Raise => mine && th.pc.Protected?
    case RunInline => mine && (th.pc == Protected(Batch) || th.pc == Staged(Ids))
    case InlineDone => mine && th.pc.Inline?
    case EnterNative => mine && th.pc.Protected?
    case NativeReturn => th.pc.Native?
    case Resume(_) => free && th.pc.Returned?
    case IntsChecked(_) => mine && th.pc == CheckingInts
    case Spawn => mine && th.pc == Protected(Batch)
    case WorkerStart => free && th.worker == Created
    case WorkerReturn => th.worker == Running
    case WorkerExit => free && (th.worker == Finished || (th.worker == Created && th.pc == KillJoining))
    case Joined(_) => free && th.pc == Joining && th.worker == Dead
    case Interrupt => free && th.pc == Joining
    case KillJoined => free && th.pc == KillJoining && th.worker == Dead
    case Break => free && th.pc == KillJoining
    case Unwind => mine && th.pc.Unwinding?
    case Leave(_) => mine && th.pc.Released?
  }

  /** The thread after the step. */
  function Moved(s: State, th: Thread, step: Step): Thread {
    match step
    case Acquire => th
    case Release => th
    case Begin(k) => if s.open then th.(pc := Checked(k)) else th
    case Close => th
    case Convert =>
      if th.pc.Checked? || th.pc.Staged? then th.(pc := Calling(th.pc.kind, th.pc.Staged?)) else th
    case ConvertDone(raised) =>
      if !th.pc.Calling? then th
      else if raised then th.(pc := Released(th.pc.kind, true))
      else th.(pc := if th.pc.staged then Staged(th.pc.kind) else Checked(th.pc.kind))
    case Stage =>
      if th.pc.Checked? then th.(pc := Staged(th.pc.kind), buffer := th.pc.kind != Warmup)
      else th.(pc := Staged(Batch), buffer := true)
    case Protect => if th.pc.Staged? then th.(pc := Protected(th.pc.kind)) else th
    case Raise => if th.pc.Protected? then th.(pc := Unwinding(th.pc.kind, true)) else th
    case RunInline => if th.pc.Protected? then th.(pc := Inline(Batch)) else th.(pc := Inline(Ids))
    case InlineDone => if th.pc == Inline(Ids) then th.(pc := Released(Ids, false)) else th.(pc := CheckingInts)
    case EnterNative => if th.pc.Protected? then th.(pc := Native(th.pc.kind)) else th
    case NativeReturn => if th.pc.Native? then th.(pc := Returned(th.pc.kind)) else th
    case Resume(raised) =>
      if !th.pc.Returned? then th
      else if th.pc.kind == Batch && !raised then th.(pc := CheckingInts)
      else th.(pc := Unwinding(th.pc.kind, raised))
    case IntsChecked(raised) => th.(pc := Unwinding(Batch, raised))
    case Spawn => th.(pc := Joining, worker := Created)
    case WorkerStart => th.(worker := Running)
    case WorkerReturn => th.(worker := Finished)
    case WorkerExit => th.(worker := Dead)
    case Joined(raised) => th.(pc := Unwinding(Batch, raised), worker := NoWorker)
    case Interrupt => th.(pc := KillJoining)
    case KillJoined => th.(pc := Unwinding(Batch, true), worker := NoWorker)
    case Break => th.(pc := Unwinding(Batch, true))
    case Unwind => if th.pc.Unwinding? then th.(pc := Released(th.pc.kind, th.pc.raised)) else th
    case Leave(again) =>
      // the input is freed; the retry loop goes on without asking again whether the model is open
      if th.pc == Released(Batch, false) && again then th.(pc := Retrying, buffer := false)
      else th.(pc := Outside, buffer := false)
  }

  function LockAfter(s: State, a: Action): Lock {
    match a.step
    case Acquire => HeldBy(a.t)
    case Release => Free
    case EnterNative => Free
    case Spawn => Free
    case Resume(_) => HeldBy(a.t)
    case Joined(_) => HeldBy(a.t)
    case KillJoined => HeldBy(a.t)
    case Break => HeldBy(a.t)
    case _ => s.lock
  }

  function Next(s: State, a: Action): State
    requires a.t < |s.threads|
  {
    State(
      if a.step == Close && s.activeOps == 0 then false else s.open,
      s.activeOps + (if a.step == Protect then 1 else if a.step == Unwind then -1 else 0),
      LockAfter(s, a),
      s.threads[a.t := Moved(s, s.threads[a.t], a.step)])
  }

  // ----- safety -----

  /** Between `active_ops++` and `active_ops--`. */
  predicate InRegion(pc: Pc) {
    || pc.Protected? || pc == Inline(Batch) || pc.Native? || pc.Returned? || pc == Joining || pc == KillJoining
    || pc == CheckingInts || pc.Unwinding?
  }

  function InRegionCount(threads: seq<Thread>): nat {
    if threads == [] then 0
    else InRegionCount(threads[..|threads| - 1]) + if InRegion(threads[|threads| - 1].pc) then 1 else 0
  }

  /** Native work reads the model and the job's buffers. */
  predicate NativeReads(th: Thread) { th.pc.Native? || th.pc.Inline? || th.worker == Running }

  predicate NeedsBuffer(th: Thread) {
    th.worker == Running || ((th.pc.Native? || th.pc.Inline?) && th.pc.kind != Warmup)
  }

  /** Code under the lock that reads the model without being counted. */
  predicate LockedReads(th: Thread) { th.pc.Checked? || th.pc == Retrying || th.pc.Staged? }

  predicate Safe(s: State) {
    && s.activeOps == InRegionCount(s.threads)
    && forall t | 0 <= t < |s.threads| ::
         var th := s.threads[t];
         (NativeReads(th) || LockedReads(th) ==> s.open) && (NeedsBuffer(th) ==> th.buffer)
  }

  // ----- what disturbs a run -----

  /** The model is closed while the `to_int` of some call runs that has seen it open; or an exception
      breaks the wait for a killed worker that has not ended. */
  predicate Disturbs(s: State, a: Action)
    requires a.t < |s.threads|
  {
    match a.step
    case Close => s.open && s.activeOps == 0 && exists t :: 0 <= t < |s.threads| && s.threads[t].pc.Calling?
    case Break => s.threads[a.t].worker in {Created, Running}
    case _ => false
  }

  // ----- the invariant -----

  /** Everything else is done holding the lock. */
  predicate MayBeUnlocked(pc: Pc) {
    MaySwitch(pc) || pc.Native? || pc.Returned? || pc == Joining || pc == KillJoining
  }

  /** The job has its buffers. */
  predicate HasJob(pc: Pc) {
    || ((pc.Staged? || pc.Protected? || pc.Inline? || pc.Native?) && pc.kind != Warmup)
    || (pc.Calling? && pc.staged) || pc == Joining || pc == KillJoining
  }

  predicate JobSound(th: Thread) {
    && (HasJob(th.pc) ==> th.buffer)
    && (th.worker in {Created, Running} ==> th.pc == Joining || th.pc == KillJoining)
    && (th.pc.Inline? ==> th.pc.kind != Warmup)
    && (th.pc.Calling? ==> if th.pc.staged then th.pc.kind == Ids else th.pc.kind != Warmup)
  }

  predicate ThreadSound(s: State, t: nat)
    requires t < |s.threads|
  {
    var th := s.threads[t];
    && (!MayBeUnlocked(th.pc) ==> s.lock == HeldBy(t))
    && (InRegion(th.pc) || LockedReads(th) || th.pc.Calling? || th.pc.Inline? || th.pc == Released(Batch, false) ==>
          s.open)
    && JobSound(th)
  }

  predicate Inv(s: State) {
    && s.activeOps == InRegionCount(s.threads)
    && forall t: nat | t < |s.threads| :: ThreadSound(s, t)
  }

  lemma {:induction false} CountUpdate(threads: seq<Thread>, t: nat, th: Thread)
    requires t < |threads|
    ensures InRegionCount(threads[t := th]) ==
            InRegionCount(threads) - (if InRegion(threads[t].pc) then 1 else 0) + (if InRegion(th.pc) then 1 else 0)
  {
    var n := |threads| - 1;
    if t < n {
      assert threads[t := th][..n] == threads[..n][t := th];
      CountUpdate(threads[..n], t, th);
    } else {
      assert threads[t := th][..n] == threads[..n];
    }
  }

  lemma {:induction false} CountAtLeast(threads: seq<Thread>, t: nat)
    requires t < |threads| && InRegion(threads[t].pc)
    ensures InRegionCount(threads) >= 1
  {
    if t < |threads| - 1 { CountAtLeast(threads[..|threads| - 1], t); }
  }

  lemma CountStep(s: State, a: Action)
    requires Enabled(s, a) && s.activeOps == InRegionCount(s.threads) && ThreadSound(s, a.t)
    ensures Next(s, a).activeOps == InRegionCount(Next(s, a).threads)
  {
    hide InRegionCount;
    CountUpdate(s.threads, a.t, Moved(s, s.threads[a.t], a.step));
  }

  /** Nobody else is affected: a closing thread holds the lock and has seen the count at zero. */
  lemma OthersStaySound(s: State, a: Action, t: nat)
    requires Inv(s) && Enabled(s, a) && !Disturbs(s, a) && t < |s.threads| && t != a.t
    ensures ThreadSound(Next(s, a), t)
  {
    assert ThreadSound(s, t);
    if a.step == Close && InRegion(s.threads[t].pc) { CountAtLeast(s.threads, t); }
    hide InRegionCount, Moved;
  }

  lemma MoverKeepsJob(s: State, a: Action)
    requires Enabled(s, a) && !Disturbs(s, a) && ThreadSound(s, a.t)
    ensures JobSound(Moved(s, s.threads[a.t], a.step))
  {
  }

  lemma MoverStaysSound(s: State, a: Action)
    requires Inv(s) && Enabled(s, a) && !Disturbs(s, a)
    ensures ThreadSound(Next(s, a), a.t)
  {
    assert ThreadSound(s, a.t);
    MoverKeepsJob(s, a);
    hide InRegionCount, JobSound;
  }

  lemma StepIsSound(s: State, a: Action)
    requires Inv(s) && Enabled(s, a) && !Disturbs(s, a)
    ensures Inv(Next(s, a))
  {
    assert ThreadSound(s, a.t);
    CountStep(s, a);
    hide Enabled, Disturbs, ThreadSound, Moved, InRegionCount;
    forall t: nat | t < |s.threads| ensures ThreadSound(Next(s, a), t) {
      if t == a.t { MoverStaysSound(s, a); } else { OthersStaySound(s, a, t); }
    }
  }

  lemma InvIsSafe(s: State)
    requires Inv(s)
    ensures Safe(s)
  {
    forall t | 0 <= t < |s.threads|
      ensures var th := s.threads[t]; (NativeReads(th) || LockedReads(th) ==> s.open) && (NeedsBuffer(th) ==> th.buffer)
    {
      assert ThreadSound(s, t);
    }
  }

  // ----- runs -----

  function Start(n: nat): State { State(true, 0, Free, seq(n, _ => Thread(Outside, false, NoWorker))) }

  predicate Possible(s: State, actions: seq<Action>)
    decreases |actions|
  {
    actions == [] || (Enabled(s, actions[0]) && Possible(Next(s, actions[0]), actions[1..]))
  }

  function After(s: State, actions: seq<Action>): State
    requires Possible(s, actions)
    decreases |actions|
  {
    if actions == [] then s else After(Next(s, actions[0]), actions[1..])
  }

  /** No step of the run disturbs. */
  predicate Undisturbed(s: State, actions: seq<Action>)
    requires Possible(s, actions)
    decreases |actions|
  {
    actions == [] || (!Disturbs(s, actions[0]) && Undisturbed(Next(s, actions[0]), actions[1..]))
  }

  lemma {:induction false} RunIsSound(s: State, actions: seq<Action>)
    requires Inv(s) && Possible(s, actions) && Undisturbed(s, actions)
    ensures Inv(After(s, actions))
    decreases |actions|
  {
    hide Inv, Next, Disturbs;
    if actions != [] {
      StepIsSound(s, actions[0]);
      RunIsSound(Next(s, actions[0]), actions[1..]);
    }
  }

  lemma {:induction false} StartIsSound(n: nat)
    ensures Inv(Start(n))
  {
    NobodyInRegion(Start(n).threads);
  }

  lemma {:induction false} NobodyInRegion(threads: seq<Thread>)
    requires forall t | 0 <= t < |threads| :: threads[t].pc == Outside
    ensures InRegionCount(threads) == 0
  {
    if threads != [] { NobodyInRegion(threads[..|threads| - 1]); }
  }

  /** On every normal, raising, killed and joined path, in every interleaving: `active_ops` is the number
      of operations inside their region, no native work runs on a closed model, and no buffer is freed
      that a worker can still read. */
  lemma UndisturbedIsSafe(n: nat, actions: seq<Action>)
    requires Possible(Start(n), actions) && Undisturbed(Start(n), actions)
    ensures Safe(After(Start(n), actions))
  {
    StartIsSound(n);
    RunIsSound(Start(n), actions);
    InvIsSafe(After(Start(n), actions));
  }

  // ----- a run that is disturbed can be carried on until it is unsafe -----

  /** What can follow does not break safety, as long as it does not disturb either. */
  ghost predicate StaysSafe(s: State) {
    forall more: seq<Action> | Possible(s, more) && Undisturbed(s, more) :: Safe(After(s, more))
  }

  /** An undisturbed step keeps that. */
  lemma StepLeadsOn(s: State, a: Action)
    requires Enabled(s, a) && !Disturbs(s, a) && !StaysSafe(Next(s, a))
    ensures !StaysSafe(s)
  {
    hide Next, Safe, Disturbs;
    var more: seq<Action> :| Possible(Next(s, a), more) && Undisturbed(Next(s, a), more)
        && !Safe(After(Next(s, a), more));
    assert ([a] + more)[1..] == more;
    assert Possible(s, [a] + more) && Undisturbed(s, [a] + more);
    assert After(s, [a] + more) == After(Next(s, a), more);
  }

  lemma UnsafeNow(s: State)
    requires !Safe(s)
    ensures !StaysSafe(s)
  {
    assert Possible(s, []) && After(s, []) == s;
  }

  /** The `to_int` returns into code that takes the model to be open. */
  lemma ReturnsToClosed(s: State, u: nat)
    requires u < |s.threads| && s.threads[u].pc.Calling? && !s.open && s.lock == HeldBy(u)
    ensures !StaysSafe(s)
  {
    var a := Action(u, ConvertDone(false));
    assert LockedReads(Next(s, a).threads[u]);
    UnsafeNow(Next(s, a));
    StepLeadsOn(s, a);
  }

  lemma ClosedWhileCalling(s: State, t: nat, u: nat)
    requires t < |s.threads| && u < |s.threads| && s.threads[u].pc.Calling?
    requires !s.open && s.lock == HeldBy(t) && MaySwitch(s.threads[t].pc)
    ensures !StaysSafe(s)
  {
    hide StaysSafe;
    if t == u {
      ReturnsToClosed(s, u);
    } else {
      var free := Next(s, Action(t, Release));
      assert free.threads == s.threads;
      assert Next(free, Action(u, Acquire)).threads == s.threads;
      ReturnsToClosed(Next(free, Action(u, Acquire)), u);
      StepLeadsOn(free, Action(u, Acquire));
      StepLeadsOn(s, Action(t, Release));
    }
  }

  /** The call unwinds and frees its buffers; the worker runs on. */
  lemma FreedUnderWorker(s: State, t: nat)
    requires t < |s.threads| && s.lock == HeldBy(t) && s.threads[t].worker in {Created, Running}
    requires s.threads[t].pc == Outside && !s.threads[t].buffer
    ensures !StaysSafe(s)
  {
    hide StaysSafe;
    if s.threads[t].worker == Running {
      assert NeedsBuffer(s.threads[t]);
      UnsafeNow(s);
    } else {
      var free := Next(s, Action(t, Release));
      var last := Next(free, Action(t, WorkerStart));
      assert NeedsBuffer(last.threads[t]);
      UnsafeNow(last);
      StepLeadsOn(free, Action(t, WorkerStart));
      StepLeadsOn(s, Action(t, Release));
    }
  }

  lemma BrokenWait(s: State, t: nat)
    requires t < |s.threads| && s.lock == HeldBy(t) && s.threads[t].worker in {Created, Running}
    requires s.threads[t].pc == Unwinding(Batch, true)
    ensures !StaysSafe(s)
  {
    hide StaysSafe;
    var unwound := Next(s, Action(t, Unwind));
    FreedUnderWorker(Next(unwound, Action(t, Leave(false))), t);
    StepLeadsOn(unwound, Action(t, Leave(false)));
    StepLeadsOn(s, Action(t, Unwind));
  }

  lemma DisturbedIsUnsafe(s: State, a: Action)
    requires Enabled(s, a) && Disturbs(s, a)
    ensures !StaysSafe(Next(s, a))
  {
    hide StaysSafe;
    if a.step == Close {
      var u: nat :| u < |s.threads| && s.threads[u].pc.Calling?;
      assert Next(s, a).threads == s.threads;
      ClosedWhileCalling(Next(s, a), a.t, u);
    } else {
      BrokenWait(Next(s, a), a.t);
    }
  }

  /** The states a run goes through keep everything that can follow safe. */
  ghost predicate AlwaysStaysSafe(s: State, actions: seq<Action>)
    requires Possible(s, actions)
    decreases |actions|
  {
    StaysSafe(s) && (actions == [] || AlwaysStaysSafe(Next(s, actions[0]), actions[1..]))
  }

  lemma SoundStaysSafe(s: State)
    requires Inv(s)
    ensures StaysSafe(s)
  {
    forall more: seq<Action> | Possible(s, more) && Undisturbed(s, more)
      ensures Safe(After(s, more))
    {
      RunIsSound(s, more);
      InvIsSafe(After(s, more));
    }
  }

  lemma {:induction false} SafeFromSound(s: State, actions: seq<Action>)
    requires Inv(s) && Possible(s, actions)
    ensures AlwaysStaysSafe(s, actions) <==> Undisturbed(s, actions)
    decreases |actions|
  {
    SoundStaysSafe(s);
    hide Inv, StaysSafe, Next, Enabled, Disturbs;
    if actions != [] {
      if Disturbs(s, actions[0]) {
        DisturbedIsUnsafe(s, actions[0]);
      } else {
        StepIsSound(s, actions[0]);
        SafeFromSound(Next(s, actions[0]), actions[1..]);
      }
    }
  }

  /** The exact condition, run by run: a run and everything undisturbed that can follow any of its states
      is safe if and only if no step of the run closes the model under a running `to_int` or breaks the
      wait for a live worker. */
  lemma SafeIffUndisturbed(n: nat, actions: seq<Action>)
    requires Possible(Start(n), actions)
    ensures AlwaysStaysSafe(Start(n), actions) <==> Undisturbed(Start(n), actions)
  {
    StartIsSound(n);
    SafeFromSound(Start(n), actions);
  }

  // ----- both disturbances as runs of one thread -----

  /** The steps of one thread lead from state to state. */
  predicate Traces(steps: seq<Step>, states: seq<State>) {
    |states| == |steps| + 1 && forall i | 0 <= i < |steps| :: StepsTo(states[i], steps[i], states[i + 1])
  }

  predicate StepsTo(s: State, step: Step, next: State) {
    |s.threads| > 0 && Enabled(s, Action(0, step)) && Next(s, Action(0, step)) == next
  }

  lemma {:induction false} TraceIsRun(steps: seq<Step>, states: seq<State>) returns (actions: seq<Action>)
    requires Traces(steps, states)
    ensures Possible(states[0], actions) && After(states[0], actions) == states[|steps|]
    decreases |steps|
  {
    hide Next, Enabled;
    if steps == [] {
      actions := [];
    } else {
      var a := Action(0, steps[0]);
      assert StepsTo(states[0], steps[0], states[0 + 1]);
      var rest := TraceIsRun(steps[1..], states[1..]);
      actions := [a] + rest;
      assert actions[1..] == rest;
    }
  }

  function First(s: State): Thread
    requires |s.threads| > 0
  {
    s.threads[0]
  }

  function StateOf(n: nat, open: bool, activeOps: int, lock: Lock, th: Thread): State
    requires n > 0
  {
    State(open, activeOps, lock, Start(n).threads[0 := th])
  }

  const BROKEN_WAIT: seq<Step> := [
    Acquire, Begin(Batch), Stage, Protect, Spawn, WorkerStart, Interrupt, Break, Unwind, Leave(false), Close]

  function BrokenState(n: nat, i: nat): State
    requires n > 0
  {
    match i
    case 0 => Start(n)
    case 1 => StateOf(n, true, 0, HeldBy(0), Thread(Outside, false, NoWorker))
    case 2 => StateOf(n, true, 0, HeldBy(0), Thread(Checked(Batch), false, NoWorker))
    case 3 => StateOf(n, true, 0, HeldBy(0), Thread(Staged(Batch), true, NoWorker))
    case 4 => StateOf(n, true, 1, HeldBy(0), Thread(Protected(Batch), true, NoWorker))
    case 5 => StateOf(n, true, 1, Free, Thread(Joining, true, Created))
    case 6 => StateOf(n, true, 1, Free, Thread(Joining, true, Running))
    case 7 => StateOf(n, true, 1, Free, Thread(KillJoining, true, Running))
    case 8 => StateOf(n, true, 1, HeldBy(0), Thread(Unwinding(Batch, true), true, Running))
    case 9 => StateOf(n, true, 0, HeldBy(0), Thread(Released(Batch, true), true, Running))
    case 10 => StateOf(n, true, 0, HeldBy(0), Thread(Outside, false, Running))
    case _ => StateOf(n, false, 0, HeldBy(0), Thread(Outside, false, Running))
  }

  lemma BrokenStep(n: nat, i: nat)
    requires n > 0 && i < |BROKEN_WAIT|
    ensures StepsTo(BrokenState(n, i), BROKEN_WAIT[i], BrokenState(n, i + 1))
  {
    if i < 6 { WaitBegins(n, i); } else { WaitBreaks(n, i); }
    hide StepsTo, BrokenState;
  }

  lemma WaitBegins(n: nat, i: nat)
    requires n > 0 && i < 6
    ensures StepsTo(BrokenState(n, i), BROKEN_WAIT[i], BrokenState(n, i + 1))
  {
  }

  lemma WaitBreaks(n: nat, i: nat)
    requires n > 0 && 6 <= i < |BROKEN_WAIT|
    ensures StepsTo(BrokenState(n, i), BROKEN_WAIT[i], BrokenState(n, i + 1))
  {
  }

  /** A raise that breaks the wait in the ensure clause leaves the killed worker running. */
  lemma BrokenWaitIsUnsafe(n: nat) returns (actions: seq<Action>)
    requires n > 0
    ensures Possible(Start(n), actions)
    ensures var s := After(Start(n), actions);
            |s.threads| > 0 && First(s).worker == Running && !First(s).buffer && !s.open
  {
    var states := seq(|BROKEN_WAIT| + 1, i requires 0 <= i => BrokenState(n, i));
    assert Traces(BROKEN_WAIT, states) by {
      hide StepsTo, BrokenState;
      forall i | 0 <= i < |BROKEN_WAIT| ensures StepsTo(states[i], BROKEN_WAIT[i], states[i + 1])
      {
        BrokenStep(n, i);
      }
    }
    hide Traces, Possible, After;
    actions := TraceIsRun(BROKEN_WAIT, states);
  }

  const CLOSING_CONVERSION: seq<Step> := [
    Acquire, Begin(Batch), Convert, Close, ConvertDone(false), Stage, Protect, EnterNative]

  function ClosedState(n: nat, i: nat): State
    requires n > 0
  {
    match i
    case 0 => Start(n)
    case 1 => StateOf(n, true, 0, HeldBy(0), Thread(Outside, false, NoWorker))
    case 2 => StateOf(n, true, 0, HeldBy(0), Thread(Checked(Batch), false, NoWorker))
    case 3 => StateOf(n, true, 0, HeldBy(0), Thread(Calling(Batch, false), false, NoWorker))
    case 4 => StateOf(n, false, 0, HeldBy(0), Thread(Calling(Batch, false), false, NoWorker))
    case 5 => StateOf(n, false, 0, HeldBy(0), Thread(Checked(Batch), false, NoWorker))
    case 6 => StateOf(n, false, 0, HeldBy(0), Thread(Staged(Batch), true, NoWorker))
    case 7 => StateOf(n, false, 1, HeldBy(0), Thread(Protected(Batch), true, NoWorker))
    case _ => StateOf(n, false, 1, Free, Thread(Native(Batch), true, NoWorker))
  }

  lemma ClosedStep(n: nat, i: nat)
    requires n > 0 && i < |CLOSING_CONVERSION|
    ensures StepsTo(ClosedState(n, i), CLOSING_CONVERSION[i], ClosedState(n, i + 1))
  {
  }

  /** A `to_int` that closes the model sends the call into native work on it. */
  lemma ClosingConversionIsUnsafe(n: nat) returns (actions: seq<Action>)
    requires n > 0
    ensures Possible(Start(n), actions)
    ensures var s := After(Start(n), actions); |s.threads| > 0 && First(s).pc == Native(Batch) && !s.open
  {
    var states := seq(|CLOSING_CONVERSION| + 1, i requires 0 <= i => ClosedState(n, i));
    assert Traces(CLOSING_CONVERSION, states) by {
      hide StepsTo, ClosedState;
      forall i | 0 <= i < |CLOSING_CONVERSION| ensures StepsTo(states[i], CLOSING_CONVERSION[i], states[i + 1])
      {
        ClosedStep(n, i);
      }
    }
    hide Traces, Possible, After;
    actions := TraceIsRun(CLOSING_CONVERSION, states);
  }
}

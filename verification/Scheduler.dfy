/**
 Tasks, run queues and interrupt levels as one state machine: kern/task/task.c,
 kern/arch/aarch64/spl.c and the IRQ path of kern/arch/aarch64/trap.c.

 A task's suspended calls are frames on its own stack: a trap holds the local `oldspl` of
 aarch64_trapentry and the interrupt mask that eret will reload from SPSR, a switch holds the
 local `spl` of mi_switch.  `curspl` and the hardware mask are global and overwritten by
 whichever task runs.
 */
module Scheduler {
  import opened Wrappers

  datatype Frame =
    | Trap(oldspl: nat, oldmask: bool)
    | Switch(spl: nat)

  datatype TaskInfo = TaskInfo(spl: nat, stack: seq<Frame>)

  /** Where the current task is: in its own code, just switched to, or about to run for the
      first time. */
  datatype Mode = Running | Resuming | Starting

  datatype State<T(==)> = State(
    cur: T,
    ready: seq<T>,
    zombie: seq<T>,
    tasks: map<T, TaskInfo>,
    curspl: nat,
    masked: bool,
    mode: Mode)

  datatype Into = ToReady | ToZombie

  datatype Event<T> =
    | Start(t: T)          // task_start
    | SplHigh
    | Spl0
    | SplX(spl: nat)
    | TrapEntry            // an interrupt is taken, up to the call of the handler
    | TrapExit             // aarch64_trapentry returns, and eret
    | MiSwitch(into: Into) // mi_switch up to and including md_switch
    | Resume               // mi_switch after md_switch
    | Startup              // mi_task_startup up to the call of the entry function

  // ----- spl.c -----------------------------------------------------------------------------

  function SetSpl<T>(s: State<T>, spl: nat): State<T>
    requires s.cur in s.tasks
  {
    s.(tasks := s.tasks[s.cur := s.tasks[s.cur].(spl := spl)], curspl := spl)
  }

  function DoSplHigh<T>(s: State<T>): State<T>
    requires s.cur in s.tasks
  {
    SetSpl(s, 1).(masked := true)
  }

  function DoSpl0<T>(s: State<T>): State<T>
    requires s.cur in s.tasks
  {
    SetSpl(s, 0).(masked := false)
  }

  function DoSplX<T>(s: State<T>, spl: nat): State<T>
    requires s.cur in s.tasks
  {
    if spl > 0 then DoSplHigh(s) else DoSpl0(s)
  }

  function Push<T>(s: State<T>, f: Frame): State<T>
    requires s.cur in s.tasks
  {
    s.(tasks := s.tasks[s.cur := s.tasks[s.cur].(stack := s.tasks[s.cur].stack + [f])])
  }

  function Pop<T>(s: State<T>): State<T>
    requires s.cur in s.tasks && s.tasks[s.cur].stack != []
  {
    var stack := s.tasks[s.cur].stack;
    s.(tasks := s.tasks[s.cur := s.tasks[s.cur].(stack := stack[..|stack| - 1])])
  }

  function Top<T>(s: State<T>): Option<Frame>
    requires s.cur in s.tasks
  {
    var stack := s.tasks[s.cur].stack;
    if stack == [] then None else Some(stack[|stack| - 1])
  }

  predicate InTrap<T>(s: State<T>)
    requires s.cur in s.tasks
  {
    exists i :: 0 <= i < |s.tasks[s.cur].stack| && s.tasks[s.cur].stack[i].Trap?
  }

  // ----- trap.c ----------------------------------------------------------------------------

  function DoTrapEntry<T>(s: State<T>): State<T>
    requires s.cur in s.tasks
  {
    SetSpl(Push(s, Trap(s.tasks[s.cur].spl, s.masked)), 1).(masked := true)
  }

  function DoTrapExit<T>(s: State<T>): State<T>
    requires s.cur in s.tasks && Top(s).Some? && Top(s).value.Trap?
  {
    var f := Top(s).value;
    SetSpl(Pop(s), f.oldspl).(masked := f.oldmask)
  }

  // ----- task.c ----------------------------------------------------------------------------

  function Without<T(==)>(q: seq<T>, t: T): seq<T> {
    if q == [] then [] else if q[0] == t then q[1..] else [q[0]] + Without(q[1..], t)
  }

  /** task_start: at the head of the ready list, with a fresh stack and spl 0. */
  function DoStart<T>(s: State<T>, t: T): State<T> {
    s.(ready := [t] + s.ready, tasks := s.tasks[t := TaskInfo(0, [])])
  }

  /** The scheduler is asked before the current task is queued; without a choice the current
      task goes on.  The queued task is the one whose saved level is pushed. */
  function DoMiSwitch<T>(s: State<T>, into: Into): State<T>
    requires s.cur in s.tasks
    requires s.ready != [] ==> s.ready[0] in s.tasks
  {
    var next := if s.ready == [] then s.cur else s.ready[0];
    var queued := if into == ToReady then s.(ready := s.ready + [s.cur]) else s.(zombie := s.zombie + [s.cur]);
    var high := Push(DoSplHigh(queued), Switch(s.curspl));
    high.(cur := next, ready := Without(queued.ready, next),
          mode := if high.tasks[next].stack == [] then Starting else Resuming)
  }

  function DoResume<T>(s: State<T>): State<T>
    requires s.cur in s.tasks && Top(s).Some? && Top(s).value.Switch?
  {
    DoSplX(Pop(s), Top(s).value.spl).(mode := Running)
  }

  // ----- the machine ---------------------------------------------------------------------

  /** When a step can happen.  Interrupts are taken only while unmasked; a task runs only in
      Running mode; an interrupt handler does not lower the level; a started task is new. */
  predicate Enabled<T(==)>(s: State<T>, e: Event<T>) {
    && s.cur in s.tasks
    && (s.ready != [] ==> s.ready[0] in s.tasks)
    && match e
       case Start(t) => s.mode == Running && t !in s.tasks
       case SplHigh => s.mode == Running
       case Spl0 => s.mode == Running && !InTrap(s)
       case SplX(spl) => s.mode == Running && (spl == 0 ==> !InTrap(s))
       case TrapEntry => s.mode == Running && !s.masked
       case TrapExit => s.mode == Running && Top(s).Some? && Top(s).value.Trap?
       case MiSwitch(_) => s.mode == Running
       case Resume => s.mode == Resuming && Top(s).Some? && Top(s).value.Switch?
       case Startup => s.mode == Starting
  }

  function Step<T(==)>(s: State<T>, e: Event<T>): State<T>
    requires Enabled(s, e)
  {
    match e
    case Start(t) => DoStart(s, t)
    case SplHigh => DoSplHigh(s)
    case Spl0 => DoSpl0(s)
    case SplX(spl) => DoSplX(s, spl)
    case TrapEntry => DoTrapEntry(s)
    case TrapExit => DoTrapExit(s)
    case MiSwitch(into) => DoMiSwitch(s, into)
    case Resume => DoResume(s)
    case Startup => DoSpl0(s).(mode := Running)
  }

  /** After task_bootstrap: one task, interrupts on. */
  predicate Initial<T(==)>(s: State<T>) {
    s.ready == [] && s.zombie == [] && s.tasks == map[s.cur := TaskInfo(0, [])]
    && s.curspl == 0 && !s.masked && s.mode == Running
  }

  /** The state after each event of a run, the first state first. */
  ghost predicate IsRun<T>(states: seq<State<T>>, es: seq<Event<T>>) {
    |states| == |es| + 1
    && forall i {:trigger es[i]} :: 0 <= i < |es| ==>
         Enabled(states[i], es[i]) && states[i + 1] == Step(states[i], es[i])
  }

  // ----- what every step keeps -------------------------------------------------------------

  /** Every started task is exactly once in one of: current, ready, zombie. */
  predicate Queues<T(==)>(s: State<T>) {
    multiset{s.cur} + multiset(s.ready) + multiset(s.zombie) == multiset(s.tasks.Keys)
  }

  /** The calls suspended below the current point: at most one trap, taken at level 0. */
  predicate IsBase(stack: seq<Frame>) {
    stack == [] || stack == [Trap(0, false)]
  }

  /** A task that is not running: brand new, or suspended in mi_switch at level 1.  One that
      was switched away inside a trap will come back to level 1. */
  predicate IsSuspended(info: TaskInfo) {
    if info.stack == [] then info.spl == 0
    else
      var n := |info.stack| - 1;
      info.spl == 1 && IsBase(info.stack[..n]) && info.stack[n].Switch? && info.stack[n].spl <= 1
      && (n > 0 ==> info.stack[n].spl == 1)
  }

  predicate Levels<T(==)>(s: State<T>)
    requires s.cur in s.tasks
  {
    var info := s.tasks[s.cur];
    && s.curspl <= 1 && (s.masked <==> s.curspl == 1)
    && (match s.mode
        case Running => info.spl == s.curspl && IsBase(info.stack) && (info.stack != [] ==> s.curspl == 1)
        case Resuming => s.curspl == 1 && IsSuspended(info) && info.stack != []
        case Starting => s.curspl == 1 && info == TaskInfo(0, []))
  }

  predicate ReadySuspended<T(==)>(s: State<T>) {
    forall i :: 0 <= i < |s.ready| ==> s.ready[i] in s.tasks && IsSuspended(s.tasks[s.ready[i]])
  }

  predicate Inv<T(==)>(s: State<T>) {
    s.cur in s.tasks && Queues(s) && Levels(s) && ReadySuspended(s)
  }

  /** Every step keeps the queues and the levels; an exit needs a task to go to. */
  lemma StepKeepsInv<T>(s: State<T>, e: Event<T>)
    requires Inv(s) && Enabled(s, e)
    requires e == MiSwitch(ToZombie) ==> s.ready != []
    ensures Inv(Step(s, e))
  {
    CurrentIsNotQueued(s);
    hide Queues;
    match e
    case Start(t) => StartKeepsInv(s, t);
    case MiSwitch(into) => MiSwitchKeepsInv(s, into);
    case _ =>
      OwnStepLevels(s, e);
      OwnStepQueues(s, Step(s, e));
  }

  predicate IsOwnStep<T>(e: Event<T>) { !e.Start? && !e.MiSwitch? }

  /** A step of the current task on its own frames and the interrupt level. */
  lemma OwnStepLevels<T>(s: State<T>, e: Event<T>)
    requires Inv(s) && Enabled(s, e) && IsOwnStep(e)
    ensures var s' := Step(s, e);
            s'.cur == s.cur && s'.ready == s.ready && s'.zombie == s.zombie && Levels(s')
            && s'.tasks.Keys == s.tasks.Keys && forall t :: t in s.tasks && t != s.cur ==> s'.tasks[t] == s.tasks[t]
  {
    hide Queues, ReadySuspended;
    var stack := s.tasks[s.cur].stack;
    if s.mode == Running && stack != [] {
      assert stack == [Trap(0, false)] && stack[0].Trap? && InTrap(s);
    }
    assert e.TrapExit? ==> stack[..|stack| - 1] == [];
    assert e.TrapEntry? ==> stack == [] && stack + [Trap(0, false)] == [Trap(0, false)];
  }

  lemma OwnStepQueues<T>(s: State<T>, s': State<T>)
    requires Inv(s) && s'.cur == s.cur && s'.ready == s.ready && s'.zombie == s.zombie && s'.tasks.Keys == s.tasks.Keys
    requires forall t :: t in s.tasks && t != s.cur ==> s'.tasks[t] == s.tasks[t]
    ensures Queues(s') && ReadySuspended(s')
  {
    CurrentIsNotQueued(s);
    hide Levels, IsSuspended;
  }

  /** What can happen next, in any state that keeps the invariant: a task just switched to resumes
      or starts and nothing else; a running task may do anything, except that interrupts are taken
      at level 0 only, a handler does not lower the level, and no trap returns that was not taken. */
  lemma EnabledIff<T>(s: State<T>, e: Event<T>)
    requires Inv(s)
    ensures Enabled(s, e) <==>
            match e
            case Start(t) => s.mode == Running && t !in s.tasks
            case SplHigh => s.mode == Running
            case Spl0 => s.mode == Running && s.tasks[s.cur].stack == []
            case SplX(spl) => s.mode == Running && (spl > 0 || s.tasks[s.cur].stack == [])
            case TrapEntry => s.mode == Running && s.curspl == 0
            case TrapExit => s.mode == Running && s.tasks[s.cur].stack != []
            case MiSwitch(_) => s.mode == Running
            case Resume => s.mode == Resuming
            case Startup => s.mode == Starting
  {
    CurrentIsNotQueued(s);
    assert s.mode == Running && s.tasks[s.cur].stack != [] ==> s.tasks[s.cur].stack[0].Trap?;
    hide Queues, ReadySuspended;
  }

  /** The level and the mask after each step: a new task starts unmasked, and a trap returns to
      level 0, where it was taken. */
  lemma LevelAfter<T>(s: State<T>, e: Event<T>)
    requires Inv(s) && Enabled(s, e)
    ensures var high := match e
                        case Start(_) => s.curspl == 1
                        case SplX(spl) => spl > 0
                        case Resume => Top(s) == Some(Switch(1))
                        case _ => e.SplHigh? || e.TrapEntry? || e.MiSwitch?;
            var s' := Step(s, e);
            s'.curspl == (if high then 1 else 0) && s'.masked == high
            && (e.Startup? ==> s'.cur == s.cur && s'.mode == Running && s'.tasks[s.cur] == TaskInfo(0, []))
            && (e.Start? ==> s'.cur == s.cur && s'.ready == [e.t] + s.ready
                             && s'.tasks == s.tasks[e.t := TaskInfo(0, [])])
  {
    hide Queues, ReadySuspended;
  }

  lemma CurrentIsNotQueued<T>(s: State<T>)
    requires Queues(s)
    ensures s.cur in s.tasks && s.cur !in s.ready && s.cur !in s.zombie
    ensures forall i :: 0 <= i < |s.ready| ==>
              s.ready[i] in s.tasks && s.ready[i] !in s.zombie && s.ready[i] !in s.ready[i + 1..]
  {
    assert multiset(s.tasks.Keys)[s.cur] <= 1;
    forall i | 0 <= i < |s.ready|
      ensures s.ready[i] in s.tasks && s.ready[i] !in s.zombie && s.ready[i] !in s.ready[i + 1..]
    {
      var t := s.ready[i];
      assert s.ready == s.ready[..i] + [t] + s.ready[i + 1..];
      assert multiset(s.tasks.Keys)[t] <= 1;
      assert t in multiset(s.tasks.Keys);
      assert t in multiset(s.ready[i + 1..]) <==> t in s.ready[i + 1..];
      assert t in multiset(s.zombie) <==> t in s.zombie;
    }
    assert s.cur in multiset(s.ready) <==> s.cur in s.ready;
    assert s.cur in multiset(s.zombie) <==> s.cur in s.zombie;
    assert s.cur in multiset(s.tasks.Keys);
  }

  lemma StartKeepsInv<T>(s: State<T>, t: T)
    requires Inv(s) && Enabled(s, Start(t))
    ensures Inv(DoStart(s, t))
  {
    var s' := DoStart(s, t);
    assert Queues(s') by { StartQueues(s, t); }
    assert ReadySuspended(s') by {
      forall i | 0 <= i < |s'.ready|
        ensures s'.ready[i] in s'.tasks && IsSuspended(s'.tasks[s'.ready[i]])
      {
        if i > 0 { assert s'.ready[i] == s.ready[i - 1]; }
      }
    }
    hide Queues, IsSuspended;
  }

  lemma StartQueues<T>(s: State<T>, t: T)
    requires Queues(s) && t !in s.tasks
    ensures Queues(DoStart(s, t))
  {
    var s' := DoStart(s, t);
    assert s'.tasks.Keys == s.tasks.Keys + {t};
    assert multiset(s'.tasks.Keys) == multiset(s.tasks.Keys) + multiset{t};
    assert multiset([t] + s.ready) == multiset{t} + multiset(s.ready);
  }

  lemma MiSwitchKeepsInv<T>(s: State<T>, into: Into)
    requires Inv(s) && Enabled(s, MiSwitch(into)) && (into == ToZombie ==> s.ready != [])
    ensures Inv(DoMiSwitch(s, into))
  {
    hide Queues, DoMiSwitch, IsSuspended;
    CurrentIsNotQueued(s);
    MiSwitchQueues(s, into);
    MiSwitchConserves(s, into);
    MiSwitchTasks(s, into);
    MiSwitchMode(s, into);
    var s' := DoMiSwitch(s, into);
    forall i | 0 <= i < |s'.ready|
      ensures s'.ready[i] in s'.tasks && IsSuspended(s'.tasks[s'.ready[i]])
    {
      assert s'.ready[i] == s.cur || s'.ready[i] == s.ready[i + 1];
    }
  }

  lemma MiSwitchTasks<T>(s: State<T>, into: Into)
    requires s.cur in s.tasks && Levels(s) && Enabled(s, MiSwitch(into))
    ensures var pushed := TaskInfo(1, s.tasks[s.cur].stack + [Switch(s.curspl)]);
            DoMiSwitch(s, into).tasks == s.tasks[s.cur := pushed] && IsSuspended(pushed)
  {
    var stack := s.tasks[s.cur].stack;
    assert (stack + [Switch(s.curspl)])[..|stack|] == stack;
    hide Queues, Without;
  }

  lemma MiSwitchMode<T>(s: State<T>, into: Into)
    requires Inv(s) && Enabled(s, MiSwitch(into)) && (into == ToZombie ==> s.ready != [])
    ensures Levels(DoMiSwitch(s, into))
  {
    hide Queues, Without;
    CurrentIsNotQueued(s);
    MiSwitchTasks(s, into);
  }

  /** The next task is the head of the queue; a yield puts the current task at its end. */
  lemma MiSwitchQueues<T>(s: State<T>, into: Into)
    requires Enabled(s, MiSwitch(into)) && (into == ToZombie ==> s.ready != [])
    ensures var s' := DoMiSwitch(s, into);
            if s.ready == [] then s'.cur == s.cur && s'.ready == [] && s'.zombie == s.zombie
            else s'.cur == s.ready[0]
                 && s'.ready == s.ready[1..] + (if into == ToReady then [s.cur] else [])
                 && s'.zombie == s.zombie + (if into == ToZombie then [s.cur] else [])
    ensures DoMiSwitch(s, into).tasks.Keys == s.tasks.Keys
  {
    if s.ready != [] {
      assert (s.ready + [s.cur])[1..] == s.ready[1..] + [s.cur];
    }
  }

  lemma MiSwitchConserves<T>(s: State<T>, into: Into)
    requires Queues(s) && Enabled(s, MiSwitch(into)) && (into == ToZombie ==> s.ready != [])
    ensures Queues(DoMiSwitch(s, into))
  {
    hide DoMiSwitch, Enabled;
    MiSwitchQueues(s, into);
    if s.ready != [] {
      assert multiset(s.ready) == multiset{s.ready[0]} + multiset(s.ready[1..]) by {
        assert s.ready == [s.ready[0]] + s.ready[1..];
      }
    }
  }
}

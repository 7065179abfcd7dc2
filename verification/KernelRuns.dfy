/**
 The task code of module Kernel, driven through whole runs of the task machine.
 */
module KernelRuns {
  import opened Kernel
  import opened Scheduler
  import opened SchedulerRuns

  /** The locals of the suspended calls of each task. */
  type Locals = map<Task, seq<Frame>>

  ghost predicate Follows(locals: Locals, s: State<Task>) {
    forall t :: t in s.tasks ==> t in locals && locals[t] == s.tasks[t].stack
  }

  ghost function Affected(s: State<Task>, e: Event<Task>): Task { if e.Start? then e.t else s.cur }

  /** The frames of that task after the step. */
  ghost function FramesAfter(s: State<Task>, e: Event<Task>): seq<Frame>
    requires Enabled(s, e)
  {
    var stack := s.tasks[s.cur].stack;
    match e
    case Start(_) => []
    case TrapEntry => stack + [Trap(s.tasks[s.cur].spl, s.masked)]
    case MiSwitch(_) => stack + [Switch(s.curspl)]
    case TrapExit => stack[..|stack| - 1]
    case Resume => stack[..|stack| - 1]
    case _ => stack
  }

  lemma StepFrames(s: State<Task>, e: Event<Task>)
    requires Enabled(s, e) && Inv(s)
    ensures var s' := Step(s, e); var t := Affected(s, e);
            s'.tasks.Keys == s.tasks.Keys + {t} && s'.tasks[t].stack == FramesAfter(s, e)
            && forall u :: u in s.tasks && u != t ==> s'.tasks[u].stack == s.tasks[u].stack
  {
    hide Inv, Enabled, Step, FramesAfter;
    if e.MiSwitch? {
      SwitchFrames(s, e.into);
    } else {
      OwnFrames(s, e);
    }
  }

  lemma OwnFrames(s: State<Task>, e: Event<Task>)
    requires Enabled(s, e) && !e.MiSwitch?
    ensures var s' := Step(s, e); var t := Affected(s, e);
            s'.tasks.Keys == s.tasks.Keys + {t} && s'.tasks[t].stack == FramesAfter(s, e)
            && forall u :: u in s.tasks && u != t ==> s'.tasks[u].stack == s.tasks[u].stack
  {
    hide DoMiSwitch, InTrap;
  }

  lemma SwitchFrames(s: State<Task>, into: Into)
    requires Enabled(s, MiSwitch(into)) && Inv(s)
    ensures var s' := Step(s, MiSwitch(into));
            s.cur in s.tasks && s'.tasks.Keys == s.tasks.Keys + {s.cur}
            && s'.tasks[s.cur].stack == FramesAfter(s, MiSwitch(into))
            && forall u :: u in s.tasks && u != s.cur ==> s'.tasks[u].stack == s.tasks[u].stack
  {
    hide DoMiSwitch, Queues, ReadySuspended, IsSuspended;
    MiSwitchTasks(s, into);
  }

  lemma FollowsStep(locals: Locals, s: State<Task>, e: Event<Task>)
    requires Enabled(s, e) && Inv(s) && Follows(locals, s)
    ensures Follows(locals[Affected(s, e) := FramesAfter(s, e)], Step(s, e))
  {
    hide Enabled, Inv, Step, FramesAfter, Affected;
    StepFrames(s, e);
  }

  /** The innermost local that an exit step takes up. */
  lemma TopLocal(locals: Locals, s: State<Task>, e: Event<Task>)
    requires Enabled(s, e) && Follows(locals, s) && (e == TrapExit || e == Resume)
    ensures s.cur in locals && locals[s.cur] != []
    ensures var f := locals[s.cur][|locals[s.cur]| - 1];
            Top(s).Some? && Top(s).value == f && (if e == TrapExit then f.Trap? else f.Switch?)
  {
  }

  lemma Known(k: Scheduling)
    requires k.Valid()
    ensures k.View().tasks.Keys == k.all && k.View().cur == k.curtask && k.curtask in k.all
    ensures k.View().tasks[k.curtask] == TaskInfo(k.curtask.spl, k.curtask.stack)
    ensures k.View().curspl == k.curspl && k.View().masked == k.masked && k.View().ready == k.ready
    ensures forall i :: 0 <= i < |k.ready| ==> k.ready[i] in k.all
  {
  }

  ghost predicate IsNew(t: Task)
    reads t
  {
    IsUnlinked(t) && t.spl == 0 && t.stack == []
  }

  /** One step of the machine, by the code. */
  method Follow(k: Scheduling, e: Event<Task>, locals: Locals, ghost s: State<Task>) returns (locals': Locals)
    requires k.Valid() && k.View() == s && Inv(s) && Enabled(s, e) && Follows(locals, s)
    requires e == MiSwitch(ToZombie) ==> s.ready != []
    requires e.Start? ==> e.t !in k.all && IsNew(e.t)
    modifies k, k.tasksReady, k.tasksZombie, k.all, (if e.Start? then {e.t} else {})
    ensures k.Valid() && k.View() == Step(s, e) && Follows(locals', Step(s, e))
  {
    hide Scheduling.Valid, Scheduling.ListsValid, Scheduling.View, Inv, Enabled, Follows,
         DoStart, DoSplHigh, DoSpl0, DoSplX, DoTrapEntry, DoTrapExit, DoMiSwitch, DoResume, Scheduling.Stranded;
    Known(k);
    FollowsStep(locals, s, e);
    CurrentLocal(locals, s, e);
    var cur := k.curtask;
    var stack := locals[cur];
    match e
    case Start(t) =>
      k.TaskStart(t);
      locals' := locals[t := []];
    case SplHigh =>
      var _ := RaiseLevel(k);
      locals' := locals[cur := stack];
    case Spl0 =>
      var _ := k.SplZero();
      locals' := locals[cur := stack];
    case SplX(spl) =>
      var _ := k.Splx(spl);
      locals' := locals[cur := stack];
    case TrapEntry =>
      var oldspl, mask := k.TrapEntered();
      locals' := locals[cur := stack + [Trap(oldspl, mask)]];
    case TrapExit =>
      TopLocal(locals, s, e);
      var f := stack[|stack| - 1];
      k.TrapLeft(f.oldspl, f.oldmask);
      locals' := locals[cur := stack[..|stack| - 1]];
    case MiSwitch(into) =>
      var spl := k.MiSwitchAway(into);
      locals' := locals[cur := stack + [Switch(spl)]];
    case Resume =>
      TopLocal(locals, s, e);
      var f := stack[|stack| - 1];
      k.MiSwitchBack(f.spl);
      locals' := locals[cur := stack[..|stack| - 1]];
    case Startup =>
      k.TaskStartup();
      locals' := locals[cur := stack];
  }

  lemma CurrentLocal(locals: Locals, s: State<Task>, e: Event<Task>)
    requires Enabled(s, e) && Follows(locals, s)
    ensures s.cur in s.tasks && s.cur in locals && locals[s.cur] == s.tasks[s.cur].stack
  {
  }

  /** splhigh keeps the lists, which it does not touch. */
  method RaiseLevel(k: Scheduling) returns (result: nat)
    requires k.Valid()
    modifies k`curspl, k`masked, k.curtask`spl
    ensures k.Valid() && k.View() == DoSplHigh(old(k.View())) && result == old(k.curspl)
  {
    Known(k);
    hide Scheduling.Valid, Scheduling.ListsValid;
    result := k.SplHigh();
  }

  // ----- runs ------------------------------------------------------------------------------

  ghost function Started(es: seq<Event<Task>>): set<Task> {
    set i | 0 <= i < |es| && es[i].Start? :: es[i].t
  }

  /** Tasks still to be started are as task_new leaves them. */
  ghost predicate Pending(es: seq<Event<Task>>, i: nat)
    reads Started(es)
  {
    forall j :: i <= j < |es| && es[j].Start? ==> es[j].t in Started(es) && IsNew(es[j].t)
  }

  lemma {:induction false} TasksGrow(states: seq<State<Task>>, es: seq<Event<Task>>, i: nat, j: nat)
    requires IsRun(states, es) && Inv(states[0]) && NoExitWithoutSuccessor(states, es) && i <= j <= |es|
    ensures states[i].tasks.Keys <= states[j].tasks.Keys
  {
    hide Inv, Enabled, Step, NoExitWithoutSuccessor, Affected, FramesAfter;
    if i < j {
      TasksGrow(states, es, i, j - 1);
      RunKeepsInv(states, es, j - 1);
      StepFrames(states[j - 1], es[j - 1]);
    }
  }

  /** A task started later is none of the tasks there are, nor the one started now. */
  lemma NotYetStarted(states: seq<State<Task>>, es: seq<Event<Task>>, i: nat, j: nat)
    requires IsRun(states, es) && Inv(states[0]) && NoExitWithoutSuccessor(states, es) && i <= j < |es| && es[j].Start?
    ensures es[j].t !in states[i].tasks && (i < j && es[i].Start? ==> es[j].t != es[i].t)
  {
    hide Inv, Enabled, Step, NoExitWithoutSuccessor, FramesAfter;
    TasksGrow(states, es, i, j);
    StartsNew(states[j], es[j].t);
    if i < j {
      TasksGrow(states, es, i + 1, j);
      RunKeepsInv(states, es, i);
      StepFrames(states[i], es[i]);
    }
  }

  lemma StartsNew(s: State<Task>, t: Task)
    requires Enabled(s, Start(t))
    ensures t !in s.tasks
  {
  }

  /** From task_bootstrap on, the code follows the machine through every run: what runs of the
      machine keep, the lists, the levels and the mask keep. */
  method Drive(k: Scheduling, es: seq<Event<Task>>, ghost states: seq<State<Task>>)
    requires k.Valid() && Initial(k.View())
    requires IsRun(states, es) && states[0] == k.View() && NoExitWithoutSuccessor(states, es)
    requires Pending(es, 0)
    modifies k, k.tasksReady, k.tasksZombie, k.all, Started(es)
    ensures k.Valid() && k.View() == states[|es|]
  {
    hide Scheduling.Valid, Scheduling.View, Initial, Enabled, Step, Inv, NoExitWithoutSuccessor, Started, IsNew,
         Follows;
    InitialInv(k.View());
    Known(k);
    var locals: Locals := map[k.curtask := []];
    Begins(locals, k.View());
    for i := 0 to |es|
      invariant k.Valid() && k.View() == states[i] && Follows(locals, states[i]) && Inv(states[i])
      invariant k.all <= old(k.all) + Started(es)
      invariant Pending(es, i)
    {
      Known(k);
      forall j | i <= j < |es| && es[j].Start?
        ensures es[j].t !in k.all && (i < j && es[i].Start? ==> es[j].t != es[i].t)
      {
        NotYetStarted(states, es, i, j);
      }
      OneOf(es, i);
      StepFrames(states[i], es[i]);
      ExitHasSuccessor(states, es, i);
      locals := Follow(k, es[i], locals, states[i]);
      Known(k);
      RunKeepsInv(states, es, i + 1);
    }
  }

  lemma Begins(locals: Locals, s: State<Task>)
    requires Initial(s) && locals == map[s.cur := []]
    ensures Follows(locals, s)
  {
  }

  lemma OneOf(es: seq<Event<Task>>, i: nat)
    requires i < |es|
    ensures es[i].Start? ==> es[i].t in Started(es)
  {
  }

  lemma ExitHasSuccessor(states: seq<State<Task>>, es: seq<Event<Task>>, i: nat)
    requires IsRun(states, es) && NoExitWithoutSuccessor(states, es) && i < |es|
    ensures es[i] == MiSwitch(ToZombie) ==> states[i].ready != []
  {
  }
}

/**
 What holds over whole runs of the task machine: conservation of tasks, restored interrupt
 levels, round robin, bounded waiting, and zombies that stay dead.
 */
module SchedulerRuns {
  import opened Scheduler

  /** An exit with nobody to hand over to would leave its task both current and a zombie. */
  lemma ExitKeepsQueuesIff<T>(s: State<T>)
    requires Inv(s) && Enabled(s, MiSwitch(ToZombie))
    ensures Queues(Step(s, MiSwitch(ToZombie))) <==> s.ready != []
  {
    if s.ready != [] {
      MiSwitchConserves(s, ToZombie);
    } else {
      var s' := Step(s, MiSwitch(ToZombie));
      assert s'.cur == s.cur && s.cur in s'.zombie;
      if Queues(s') {
        CurrentIsNotQueued(s');
      }
    }
  }

  /** An exit of the bootstrap task, alone: it goes on, as a zombie. */
  lemma ExitAlone<T>(s: State<T>)
    requires Initial(s)
    ensures Enabled(s, MiSwitch(ToZombie))
    ensures var s' := Step(s, MiSwitch(ToZombie)); s'.cur == s.cur && s'.zombie == [s.cur] && !Queues(s')
  {
    InitialInv(s);
    ExitKeepsQueuesIff(s);
  }

  ghost predicate NoExitWithoutSuccessor<T>(states: seq<State<T>>, es: seq<Event<T>>)
    requires IsRun(states, es)
  {
    forall i :: 0 <= i < |es| && es[i] == MiSwitch(ToZombie) ==> states[i].ready != []
  }

  /** Every reachable state: each started task in exactly one place, and task level, curspl
      and the hardware mask in agreement. */
  lemma {:induction false} RunKeepsInv<T>(states: seq<State<T>>, es: seq<Event<T>>, i: nat)
    requires IsRun(states, es) && Inv(states[0]) && NoExitWithoutSuccessor(states, es) && i <= |es|
    ensures Inv(states[i])
  {
    hide Inv, Step, Enabled;
    if i > 0 {
      RunKeepsInv(states, es, i - 1);
      StepKeepsInv(states[i - 1], es[i - 1]);
    }
  }

  lemma InitialInv<T>(s: State<T>)
    requires Initial(s)
    ensures Inv(s)
  {
    assert multiset(s.tasks.Keys) == multiset{s.cur};
  }

  // ----- zombies ------------------------------------------------------------------------

  /** As long as the bootstrap task does not exit, it is current or ready. */
  lemma {:induction false} BootstrapStays<T>(states: seq<State<T>>, es: seq<Event<T>>, i: nat)
    requires IsRun(states, es) && Initial(states[0]) && i <= |es|
    requires forall k :: 0 <= k < i && es[k] == MiSwitch(ToZombie) ==> states[k].cur != states[0].cur
    ensures Inv(states[i]) && (states[i].cur == states[0].cur || states[0].cur in states[i].ready)
    ensures forall k :: 0 <= k < i && es[k] == MiSwitch(ToZombie) ==> states[k].ready != []
  {
    hide Inv, Step, Enabled;
    if i == 0 {
      InitialInv(states[0]);
    } else {
      BootstrapStays(states, es, i - 1);
      var s, e := states[i - 1], es[i - 1];
      SomeoneIsReady(s, states[0].cur);
      StepKeepsInv(s, e);
      StepKeepsReady(s, e, states[0].cur);
    }
  }

  lemma SomeoneIsReady<T>(s: State<T>, t: T)
    requires s.cur == t || t in s.ready
    ensures s.cur != t ==> s.ready != []
  {
  }

  lemma StepKeepsReady<T>(s: State<T>, e: Event<T>, t: T)
    requires Inv(s) && Enabled(s, e) && (s.cur == t || t in s.ready)
    requires e == MiSwitch(ToZombie) ==> s.cur != t
    ensures Step(s, e).cur == t || t in Step(s, e).ready
  {
    match e
    case Start(x) =>
    case MiSwitch(into) =>
      MiSwitchQueues(s, into);
      hide DoMiSwitch;
    case _ => OwnStepLevels(s, e);
  }

  /** Zombies stay zombies, and none ever becomes current again. */
  lemma {:induction false} ZombiesStayDead<T>(states: seq<State<T>>, es: seq<Event<T>>, i: nat, j: nat, z: T)
    requires IsRun(states, es) && Initial(states[0]) && i <= j <= |es|
    requires forall k :: 0 <= k < j && es[k] == MiSwitch(ToZombie) ==> states[k].cur != states[0].cur
    requires z in states[i].zombie
    ensures z in states[j].zombie && states[j].cur != z && z !in states[j].ready
  {
    hide Inv, Step, Enabled;
    BootstrapStays(states, es, j);
    ZombieIsNotQueued(states[j], z);
    if i < j {
      ZombiesStayDead(states, es, i, j - 1, z);
      StepKeepsZombies(states[j - 1], es[j - 1], z);
    }
  }

  lemma StepKeepsZombies<T>(s: State<T>, e: Event<T>, z: T)
    requires Enabled(s, e) && z in s.zombie && (e == MiSwitch(ToZombie) ==> s.ready != [])
    ensures z in Step(s, e).zombie
  {
    if e.MiSwitch? {
      MiSwitchQueues(s, e.into);
    }
  }

  lemma ZombieIsNotQueued<T>(s: State<T>, z: T)
    requires Inv(s)
    ensures z in s.zombie ==> s.cur != z && z !in s.ready
  {
    CurrentIsNotQueued(s);
  }

  // ----- levels restored ------------------------------------------------------------------

  /** While t is not the one stepping, its frames and its level are its own. */
  lemma OthersLeaveAlone<T>(s: State<T>, e: Event<T>, t: T)
    requires Inv(s) && Enabled(s, e) && t in s.tasks && s.cur != t
    ensures t in Step(s, e).tasks && Step(s, e).tasks[t] == s.tasks[t]
    ensures Step(s, e).cur == t ==> e.MiSwitch? && (s.tasks[t].stack != [] ==> Step(s, e).mode == Resuming)
  {
    match e
    case Start(x) =>
    case MiSwitch(into) => MiSwitchTasks(s, into);
    case _ => OwnStepLevels(s, e);
  }

  /** Between its call of mi_switch and its return, a task is suspended with that call. */
  lemma {:induction false} StaysSuspended<T>(states: seq<State<T>>, es: seq<Event<T>>, i: nat, j: nat)
    requires IsRun(states, es) && Inv(states[0]) && NoExitWithoutSuccessor(states, es)
    requires i < j <= |es| && es[i].MiSwitch?
    requires forall k :: i < k < j && es[k] == Resume ==> states[k].cur != states[i].cur
    ensures var t := states[i].cur;
            t in states[i].tasks && t in states[j].tasks
            && states[j].tasks[t] == TaskInfo(1, states[i].tasks[t].stack + [Switch(states[i].curspl)])
            && (states[j].cur == t ==> states[j].mode == Resuming)
  {
    hide Inv, Enabled, Step, NoExitWithoutSuccessor;
    RunKeepsInv(states, es, i);
    RunKeepsInv(states, es, j - 1);
    if j == i + 1 {
      SwitchSuspends(states[i], es[i].into);
    } else {
      StaysSuspended(states, es, i, j - 1);
      SuspendedStep(states[j - 1], es[j - 1], states[i].cur);
    }
  }

  lemma SwitchSuspends<T>(s: State<T>, into: Into)
    requires Inv(s) && Enabled(s, MiSwitch(into))
    ensures var s' := Step(s, MiSwitch(into));
            s.cur in s.tasks && s.cur in s'.tasks
            && s'.tasks[s.cur] == TaskInfo(1, s.tasks[s.cur].stack + [Switch(s.curspl)])
            && (s'.cur == s.cur ==> s'.mode == Resuming)
  {
    MiSwitchTasks(s, into);
  }

  lemma SuspendedStep<T>(s: State<T>, e: Event<T>, t: T)
    requires Inv(s) && Enabled(s, e) && t in s.tasks && s.tasks[t].stack != []
    requires s.cur == t ==> s.mode == Resuming && e != Resume
    ensures t in Step(s, e).tasks && Step(s, e).tasks[t] == s.tasks[t]
    ensures Step(s, e).cur == t ==> Step(s, e).mode == Resuming
  {
    assert s.cur != t;
    OthersLeaveAlone(s, e, t);
    hide Inv, Step;
  }

  /** When mi_switch returns to its caller, the hardware mask, curspl, and the task's own level
      and frames are what they were at the call, whatever other tasks did in between. */
  lemma SwitchRestoresLevel<T>(states: seq<State<T>>, es: seq<Event<T>>, i: nat, j: nat)
    requires IsRun(states, es) && Inv(states[0]) && NoExitWithoutSuccessor(states, es)
    requires i < j < |es| && es[i].MiSwitch? && es[j] == Resume && states[j].cur == states[i].cur
    requires forall k :: i < k < j && es[k] == Resume ==> states[k].cur != states[i].cur
    ensures var t := states[i].cur; var before, after := states[i], states[j + 1];
            after.cur == t && after.masked == before.masked && after.curspl == before.curspl
            && t in before.tasks && t in after.tasks && after.tasks[t] == before.tasks[t]
  {
    RunKeepsInv(states, es, i);
    RunKeepsInv(states, es, j);
    StaysSuspended(states, es, i, j);
    ResumeRestores(states[i], states[j]);
    hide Inv, Enabled, NoExitWithoutSuccessor;
  }

  lemma ResumeRestores<T>(before: State<T>, s: State<T>)
    requires Inv(before) && before.mode == Running && Inv(s) && Enabled(s, Resume) && s.cur == before.cur
    requires s.tasks[s.cur] == TaskInfo(1, before.tasks[s.cur].stack + [Switch(before.curspl)])
    ensures var after := Step(s, Resume);
            after.cur == s.cur && after.masked == before.masked && after.curspl == before.curspl
            && s.cur in after.tasks && after.tasks[s.cur] == before.tasks[s.cur]
  {
    hide Queues, ReadySuspended;
    var stack := before.tasks[s.cur].stack;
    assert (stack + [Switch(before.curspl)])[..|stack|] == stack;
  }

  /** The trap frame stays at the bottom of the task's stack until the trap returns, and no
      second trap is taken on top of it. */
  lemma {:induction false} StaysTrapped<T>(states: seq<State<T>>, es: seq<Event<T>>, i: nat, j: nat)
    requires IsRun(states, es) && Inv(states[0]) && NoExitWithoutSuccessor(states, es)
    requires i < j <= |es| && es[i] == TrapEntry
    requires forall k :: i < k < j && es[k] == TrapExit ==> states[k].cur != states[i].cur
    ensures var t := states[i].cur;
            t in states[j].tasks && IsTrapped(states[j].tasks[t])
    ensures forall k :: i < k < j && es[k] == TrapEntry ==> states[k].cur != states[i].cur
  {
    hide Inv, Enabled, Step;
    RunKeepsInv(states, es, i);
    RunKeepsInv(states, es, j - 1);
    if j == i + 1 {
      TrapPushes(states[i]);
    } else {
      StaysTrapped(states, es, i, j - 1);
      TrappedStep(states[j - 1], es[j - 1], states[i].cur);
    }
  }

  lemma TrapPushes<T>(s: State<T>)
    requires Inv(s) && Enabled(s, TrapEntry)
    ensures s.cur in Step(s, TrapEntry).tasks && IsTrapped(Step(s, TrapEntry).tasks[s.cur])
  {
  }

  predicate IsTrapped(info: TaskInfo) { info.stack != [] && info.stack[0] == Trap(0, false) }

  lemma TrappedStep<T>(s: State<T>, e: Event<T>, t: T)
    requires Inv(s) && Enabled(s, e) && t in s.tasks && IsTrapped(s.tasks[t])
    requires e == TrapExit ==> s.cur != t
    requires e == MiSwitch(ToZombie) ==> s.ready != []
    ensures t in Step(s, e).tasks && IsTrapped(Step(s, e).tasks[t])
    ensures e == TrapEntry ==> s.cur != t
  {
    if s.cur != t {
      OthersLeaveAlone(s, e, t);
    } else {
      OwnTrappedStep(s, e);
    }
    hide Inv, Enabled, Step;
  }

  lemma OwnTrappedStep<T>(s: State<T>, e: Event<T>)
    requires Inv(s) && Enabled(s, e) && IsTrapped(s.tasks[s.cur]) && e != TrapExit
    ensures s.cur in Step(s, e).tasks && IsTrapped(Step(s, e).tasks[s.cur]) && e != TrapEntry
  {
    if e.MiSwitch? {
      MiSwitchTasks(s, e.into);
    }
    hide Queues, ReadySuspended;
  }

  /** When a trap returns, mask, curspl, and the interrupted task's level and frames are what
      they were when it was taken. */
  lemma TrapRestoresLevel<T>(states: seq<State<T>>, es: seq<Event<T>>, i: nat, j: nat)
    requires IsRun(states, es) && Inv(states[0]) && NoExitWithoutSuccessor(states, es)
    requires i < j < |es| && es[i] == TrapEntry && es[j] == TrapExit && states[j].cur == states[i].cur
    requires forall k :: i < k < j && es[k] == TrapExit ==> states[k].cur != states[i].cur
    ensures var t := states[i].cur; var before, after := states[i], states[j + 1];
            after.cur == t && after.masked == before.masked && after.curspl == before.curspl
            && t in before.tasks && t in after.tasks && after.tasks[t] == before.tasks[t]
  {
    RunKeepsInv(states, es, i);
    RunKeepsInv(states, es, j);
    StaysTrapped(states, es, i, j);
    ReturnRestores(states[i], states[j]);
    hide Inv, Enabled, Step, NoExitWithoutSuccessor;
  }

  lemma ReturnRestores<T>(before: State<T>, s: State<T>)
    requires Inv(before) && Enabled(before, TrapEntry) && Inv(s) && Enabled(s, TrapExit) && s.cur == before.cur
    requires IsTrapped(s.tasks[s.cur])
    ensures var after := Step(s, TrapExit);
            after.cur == s.cur && after.masked == before.masked && after.curspl == before.curspl
            && s.cur in before.tasks && s.cur in after.tasks && after.tasks[s.cur] == before.tasks[s.cur]
  {
    hide Queues, ReadySuspended;
    assert s.tasks[s.cur].stack == [Trap(0, false)];
    assert before.tasks[s.cur] == TaskInfo(0, []) by {
      assert before.tasks[s.cur].stack != [] ==> before.curspl == 1;
    }
  }

  // ----- whose turn it is -----------------------------------------------------------------

  ghost function Switches<T>(es: seq<Event<T>>): nat {
    if es == [] then 0 else Switches(es[..|es| - 1]) + if es[|es| - 1].MiSwitch? then 1 else 0
  }

  ghost function Starts<T>(es: seq<Event<T>>): nat {
    if es == [] then 0 else Starts(es[..|es| - 1]) + if es[|es| - 1].Start? then 1 else 0
  }

  /** Turns before a task that was at position k is next, after the first i events. */
  ghost function Wait<T>(es: seq<Event<T>>, k: nat, i: nat): int
    requires i <= |es|
  {
    k + Starts(es[..i]) - Switches(es[..i])
  }

  /** A ready task at position k becomes current at the switch whose number first exceeds
      k plus the number of tasks started before it; until then it keeps its place. */
  lemma {:induction false} BoundedWaiting<T>(states: seq<State<T>>, es: seq<Event<T>>, k: nat, i: nat)
    requires IsRun(states, es) && k < |states[0].ready| && i <= |es|
    requires forall m :: 0 <= m < i ==> Wait(es, k, m) >= 0
    ensures var t := states[0].ready[k];
            if Wait(es, k, i) >= 0 then Wait(es, k, i) < |states[i].ready| && states[i].ready[Wait(es, k, i)] == t
            else Wait(es, k, i) == -1 && states[i].cur == t
  {
    if i > 0 {
      BoundedWaiting(states, es, k, i - 1);
      var s, e := states[i - 1], es[i - 1];
      assert es[..i][..i - 1] == es[..i - 1];
      assert Wait(es, k, i) == Wait(es, k, i - 1) + (if e.Start? then 1 else 0) - (if e.MiSwitch? then 1 else 0);
      if e.MiSwitch? {
        MiSwitchQueues(s, e.into);
      }
    }
  }

  /** With yields only, the queue turns by one place a switch: within n switches each of the n
      tasks becomes current exactly once, in queue order. */
  lemma {:induction false} RoundRobin<T>(states: seq<State<T>>, es: seq<Event<T>>, i: nat)
    requires IsRun(states, es) && i <= |es| && Switches(es[..i]) <= |states[0].ready| + 1
    requires forall m :: 0 <= m < i ==> !es[m].Start? && es[m] != MiSwitch(ToZombie)
    ensures var q := [states[0].cur] + states[0].ready; var c := Switches(es[..i]);
            [states[i].cur] + states[i].ready == q[c..] + q[..c]
  {
    hide Step, Enabled;
    var q := [states[0].cur] + states[0].ready;
    if i > 0 {
      var s, e := states[i - 1], es[i - 1];
      assert es[..i][..i - 1] == es[..i - 1];
      RoundRobin(states, es, i - 1);
      if e.MiSwitch? {
        assert e.into == ToReady || e == MiSwitch(ToZombie);
        TurnOnce(s, q, Switches(es[..i - 1]));
      } else {
        OwnStepKeepsOrder(s, e);
      }
    }
  }

  /** So in fewer switches than there are tasks in turn, each switch goes to the next of them,
      and they are all different: each runs once. */
  lemma EachOnce<T>(states: seq<State<T>>, es: seq<Event<T>>, i: nat)
    requires IsRun(states, es) && Inv(states[0]) && i <= |es| && Switches(es[..i]) <= |states[0].ready|
    requires forall m :: 0 <= m < i ==> !es[m].Start? && es[m] != MiSwitch(ToZombie)
    ensures var q := [states[0].cur] + states[0].ready;
            states[i].cur == q[Switches(es[..i])] && forall a, b :: 0 <= a < b < |q| ==> q[a] != q[b]
  {
    RoundRobin(states, es, i);
    AllDiffer(states[0]);
    hide Inv, Enabled, Step;
    var q, c := [states[0].cur] + states[0].ready, Switches(es[..i]);
    assert ([states[i].cur] + states[i].ready)[0] == (q[c..] + q[..c])[0];
  }

  lemma AllDiffer<T>(s: State<T>)
    requires Inv(s)
    ensures var q := [s.cur] + s.ready; forall a, b :: 0 <= a < b < |q| ==> q[a] != q[b]
  {
    CurrentIsNotQueued(s);
    hide Queues, Levels, ReadySuspended;
    forall a, b | 0 <= a < b < |s.ready| ensures s.ready[a] != s.ready[b] {
      assert s.ready[b] == s.ready[a + 1..][b - a - 1];
    }
  }

  lemma OwnStepKeepsOrder<T>(s: State<T>, e: Event<T>)
    requires Enabled(s, e) && IsOwnStep(e)
    ensures Step(s, e).cur == s.cur && Step(s, e).ready == s.ready
  {
  }

  lemma TurnOnce<T>(s: State<T>, q: seq<T>, c: nat)
    requires c < |q| && Enabled(s, MiSwitch(ToReady)) && [s.cur] + s.ready == q[c..] + q[..c]
    ensures var s' := Step(s, MiSwitch(ToReady)); [s'.cur] + s'.ready == q[c + 1..] + q[..c + 1]
  {
    MiSwitchQueues(s, ToReady);
    var turned := q[c..] + q[..c];
    assert s.cur == turned[0] == q[c];
    assert s.ready == turned[1..] == q[c + 1..] + q[..c];
    var s' := DoMiSwitch(s, ToReady);
    assert [s'.cur] + s'.ready == s.ready + [s.cur];
    hide DoMiSwitch;
  }
}

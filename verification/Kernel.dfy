/**
 The pointers of kern/task/task.c and the globals of kern/arch/aarch64/spl.c and trap.c, as
 objects.  Every method is tied to the step of the task machine it implements: what runs of
 that machine keep, the objects keep.
 */
module Kernel {
  import opened Wrappers
  import opened Scheduler

  class Task {
    var listNext: Task?
    var listPrev: Task?
    var spl: nat
    ghost var stack: seq<Frame>   // the suspended calls on the task's own stack

    /** task_new: unlinked, zeroed. */
    constructor ()
      ensures IsUnlinked(this) && spl == 0 && stack == []
    {
      listNext, listPrev, spl, stack := null, null, 0, [];
    }
  }

  class TaskList {
    var head: Task?
    var tail: Task?

    constructor ()
      ensures ListIs(this, [])
    {
      head, tail := null, null;
    }
  }

  predicate IsUnlinked(t: Task)
    reads t`listNext, t`listPrev
  {
    t.listNext == null && t.listPrev == null
  }

  /** The list is exactly these tasks, linked both ways. */
  ghost predicate ListIs(l: TaskList, s: seq<Task>)
    reads l, s`listNext, s`listPrev
  {
    && (forall i, j :: 0 <= i < j < |s| ==> s[i] != s[j])
    && (forall i {:trigger s[i].listPrev} :: 0 <= i < |s| ==> s[i].listPrev == if i == 0 then null else s[i - 1])
    && (forall i {:trigger s[i].listNext} :: 0 <= i < |s| ==> s[i].listNext == if i == |s| - 1 then null else s[i + 1])
    && (if s == [] then l.head == null && l.tail == null else l.head == s[0] && l.tail == s[|s| - 1])
  }

  lemma Neighbours(l: TaskList, s: seq<Task>, k: nat)
    requires k < |s| && ListIs(l, s)
    ensures s[k].listPrev == (if k == 0 then null else s[k - 1])
            && s[k].listNext == (if k == |s| - 1 then null else s[k + 1])
    ensures (l.head == s[k] <==> k == 0) && (l.tail == s[k] <==> k == |s| - 1)
    ensures forall i :: 0 <= i < |s| && i != k ==> s[i] != s[k]
    ensures |RemoveAt(s, k)| == |s| - 1
    ensures forall i :: 0 <= i < |RemoveAt(s, k)| ==> RemoveAt(s, k)[i] == s[if i < k then i else i + 1]
  {
  }

  lemma LastLinks(l: TaskList, s: seq<Task>)
    requires ListIs(l, s) && s != []
    ensures var last := s[|s| - 1];
            last.listNext == null && last.listPrev == (if |s| == 1 then null else s[|s| - 2])
            && l.head == s[0] && l.tail == last && forall i :: 0 <= i < |s| - 1 ==> s[i] != last
  {
  }

  /** Unlinks a task from the list it is in. */
  method TaskUnlinkFrom(task: Task, taskList: TaskList, ghost s: seq<Task>, ghost k: nat)
    requires k < |s| && s[k] == task && ListIs(taskList, s)
    modifies taskList, s`listNext, s`listPrev
    ensures ListIs(taskList, RemoveAt(s, k)) && IsUnlinked(task)
  {
    hide RemoveAt;
    ghost var r := RemoveAt(s, k);
    Neighbours(taskList, s, k);
    if task.listPrev != null {
      task.listPrev.listNext := task.listNext;
    }
    if task.listNext != null {
      task.listNext.listPrev := task.listPrev;
    }
    if taskList.head == task {
      taskList.head := task.listNext;
    }
    if taskList.tail == task {
      taskList.tail := task.listPrev;
    }
    task.listNext := null;
    task.listPrev := null;
  }

  /** Puts an unlinked task in front; the callers pass NULL for `from`. */
  method TaskListMoveHead(task: Task, to: TaskList, ghost s: seq<Task>)
    requires IsUnlinked(task) && task !in s && ListIs(to, s)
    modifies to, task`listNext, s`listPrev
    ensures ListIs(to, [task] + s)
  {
    assert s != [] ==> s[0] == to.head;
    ghost var r := [task] + s;
    assert forall i :: 1 <= i < |r| ==> r[i] == s[i - 1];
    task.listNext := to.head;
    if task.listNext != null {
      task.listNext.listPrev := task;
    } else {
      to.tail := task;
    }
    to.head := task;
  }

  method TaskListMoveTail(task: Task, to: TaskList, ghost s: seq<Task>)
    requires IsUnlinked(task) && task !in s && ListIs(to, s)
    modifies to, task`listPrev, s`listNext
    ensures ListIs(to, s + [task])
  {
    assert s != [] ==> s[|s| - 1] == to.tail;
    task.listPrev := to.tail;
    if task.listPrev != null {
      task.listPrev.listNext := task;
    } else {
      to.head := task;
    }
    to.tail := task;
  }

  /** The two lists have no task in common. */
  ghost predicate Separate(a: seq<Task>, b: seq<Task>) {
    forall t :: t in a ==> t !in b
  }

  /** The step mi_switch makes, written out. */
  lemma MiSwitchEffect<T>(s: State<T>, into: Into)
    requires s.cur in s.tasks && (s.ready != [] ==> s.ready[0] in s.tasks)
    ensures var next := if s.ready == [] then s.cur else s.ready[0];
            var queue := if into == ToReady then s.ready + [s.cur] else s.ready;
            var tasks := s.tasks[s.cur := TaskInfo(1, s.tasks[s.cur].stack + [Switch(s.curspl)])];
            DoMiSwitch(s, into) ==
            State(next, if queue == [] then [] else queue[1..],
                  if into == ToReady then s.zombie else s.zombie + [s.cur],
                  tasks, 1, true, if tasks[next].stack == [] then Starting else Resuming)
  {
  }

  class Scheduling {
    var curtask: Task
    const tasksReady: TaskList
    const tasksZombie: TaskList
    var curspl: nat
    var masked: bool              // DAIF, the hardware interrupt mask
    ghost var ready: seq<Task>
    ghost var zombie: seq<Task>
    ghost var all: set<Task>
    ghost var mode: Mode

    /** The lists are well formed and disjoint. */
    ghost predicate ListsValid()
      reads this`ready, this`zombie, this`all, tasksReady, tasksZombie, all`listNext, all`listPrev
    {
      && tasksReady != tasksZombie
      && (forall t :: t in ready ==> t in all) && (forall t :: t in zombie ==> t in all)
      && ListIs(tasksReady, ready) && ListIs(tasksZombie, zombie) && Separate(ready, zombie)
    }

    /** ... and exclude the current task. */
    ghost predicate Valid()
      reads this`curtask, this`ready, this`zombie, this`all, tasksReady, tasksZombie, all`listNext, all`listPrev
    {
      && ListsValid() && curtask in all
      && IsUnlinked(curtask) && curtask !in ready && curtask !in zombie
    }

    ghost function Infos(): map<Task, TaskInfo>
      reads this`all, all`spl, all`stack
    {
      map t | t in all :: TaskInfo(t.spl, t.stack)
    }

    /** A list whose own links were not written is the list it was. */
    twostate lemma ZombiesKept()
      requires zombie == old(zombie) && old(ListIs(tasksZombie, zombie))
      requires tasksZombie.head == old(tasksZombie.head) && tasksZombie.tail == old(tasksZombie.tail)
      requires forall t :: t in zombie ==> t.listNext == old(t.listNext) && t.listPrev == old(t.listPrev)
      ensures ListIs(tasksZombie, zombie)
    {
      assert forall i :: 0 <= i < |zombie| ==> zombie[i] in zombie;
    }

    twostate lemma ReadyKept()
      requires ready == old(ready) && old(ListIs(tasksReady, ready))
      requires tasksReady.head == old(tasksReady.head) && tasksReady.tail == old(tasksReady.tail)
      requires forall t :: t in ready ==> t.listNext == old(t.listNext) && t.listPrev == old(t.listPrev)
      ensures ListIs(tasksReady, ready)
    {
      assert forall i :: 0 <= i < |ready| ==> ready[i] in ready;
    }

    twostate lemma OneAdded(t: Task)
      requires t !in old(all) && all == old(all) + {t}
      requires forall u :: u in old(all) ==> u.spl == old(u.spl) && u.stack == old(u.stack)
      ensures Infos() == old(Infos())[t := TaskInfo(t.spl, t.stack)]
    {
    }

    lemma InfoOf(t: Task)
      requires t in all
      ensures t in Infos() && Infos()[t] == TaskInfo(t.spl, t.stack)
    {
    }

    /** Only `t` has changed its level or its frames. */
    twostate lemma OnlyChanged(t: Task)
      requires t in all && all == old(all)
      requires forall u :: u in all && u != t ==> u.spl == old(u.spl) && u.stack == old(u.stack)
      ensures Infos() == old(Infos())[t := TaskInfo(t.spl, t.stack)]
    {
    }

    /** The abstract state. */
    ghost function View(): State<Task>
      reads this, all
    {
      State(curtask, ready, zombie, Infos(), curspl, masked, mode)
    }

    /** task_bootstrap, with interrupts on as boot.S leaves them. */
    constructor ()
      ensures Valid() && Initial(View())
      ensures curspl == 0 && !masked && curtask.spl == 0 && ready == [] && zombie == []
      ensures fresh(tasksReady) && fresh(tasksZombie) && fresh(all)
    {
      var kmain := new Task();
      curtask := kmain;
      tasksReady := new TaskList();
      tasksZombie := new TaskList();
      curspl, masked := 0, false;
      ready, zombie, all, mode := [], [], {kmain}, Running;
    }

    // ----- spl.c ---------------------------------------------------------------------------

    method SplHigh() returns (result: nat)
      requires curtask in all
      modifies this`curspl, this`masked, curtask`spl
      ensures View() == DoSplHigh(old(View())) && result == old(curspl)
      ensures curtask.spl == 1 && curspl == 1 && masked
    {
      hide Infos;
      InfoOf(curtask);
      result := curspl;
      masked := true;
      curspl := 1;
      curtask.spl := 1;
      OnlyChanged(curtask);
    }

    method SplZero() returns (result: nat)
      requires Valid()
      modifies this`curspl, this`masked, curtask`spl
      ensures Valid() && View() == DoSpl0(old(View())) && result == old(curspl)
      ensures curtask.spl == 0 && curspl == 0 && !masked
    {
      hide Valid, ListsValid, Infos;
      CurrentIsKnown();
      InfoOf(curtask);
      result := curspl;
      curtask.spl := 0;
      curspl := 0;
      masked := false;
      OnlyChanged(curtask);
    }

    method Splx(spl: nat) returns (result: nat)
      requires Valid()
      modifies this`curspl, this`masked, curtask`spl
      ensures Valid() && View() == DoSplX(old(View()), spl) && result == old(curspl)
      ensures curtask.spl == curspl == (if spl > 0 then 1 else 0) && masked == (spl > 0)
    {
      hide Valid, ListsValid, Infos;
      CurrentIsKnown();
      if spl > 0 {
        result := SplHigh();
      } else {
        result := SplZero();
      }
    }

    // ----- trap.c --------------------------------------------------------------------------

    /** The processor masks interrupts and saves the mask in SPSR; then aarch64_trapentry up to
        the call of the handler. */
    method TrapEntered() returns (oldspl: nat, spsrMask: bool)
      requires Valid()
      modifies this`curspl, this`masked, curtask`spl, curtask`stack
      ensures Valid() && View() == DoTrapEntry(old(View()))
      ensures oldspl == old(curtask.spl) && spsrMask == old(masked)
      ensures curtask.spl == 1 && curspl == 1 && masked
    {
      hide Valid, ListsValid, Infos;
      CurrentIsKnown();
      InfoOf(curtask);
      spsrMask := masked;
      masked := true;
      oldspl := curtask.spl;
      curtask.spl := 1;
      curspl := 1;
      curtask.stack := curtask.stack + [Trap(oldspl, spsrMask)];
      OnlyChanged(curtask);
    }

    /** The end of aarch64_trapentry, and eret. */
    method TrapLeft(oldspl: nat, spsrMask: bool)
      requires Valid() && Top(View()) == Some(Trap(oldspl, spsrMask))
      modifies this`curspl, this`masked, curtask`spl, curtask`stack
      ensures Valid() && View() == DoTrapExit(old(View()))
      ensures curtask.spl == oldspl && curspl == oldspl && masked == spsrMask
    {
      hide Valid, ListsValid, Infos;
      CurrentIsKnown();
      InfoOf(curtask);
      curtask.spl := oldspl;
      curspl := oldspl;
      masked := spsrMask;
      curtask.stack := curtask.stack[..|curtask.stack| - 1];
      OnlyChanged(curtask);
    }

    // ----- task.c --------------------------------------------------------------------------

    method TaskStart(t: Task)
      requires Valid() && t !in all && IsUnlinked(t) && t.spl == 0 && t.stack == []
      modifies tasksReady, t`listNext, ready`listPrev, this`ready, this`all
      ensures Valid() && View() == DoStart(old(View()), t)
      ensures ready == [t] + old(ready) && zombie == old(zombie)
    {
      hide ListIs, Infos;
      TaskListMoveHead(t, tasksReady, ready);
      ZombiesKept();
      ready := [t] + ready;
      all := all + {t};
      OneAdded(t);
    }

    /** The call task_list_move_tail(curtask, NULL, task_state_to_list(into_state)). */
    method QueueCurrent(into: Into)
      requires Valid()
      modifies tasksReady, tasksZombie, all`listNext, all`listPrev, this`ready, this`zombie
      ensures ListsValid()
      ensures ready == if into == ToReady then old(ready) + [curtask] else old(ready)
      ensures zombie == if into == ToReady then old(zombie) else old(zombie) + [curtask]
      ensures View() == old(View()).(ready := ready, zombie := zombie)
    {
      hide ListIs, Infos;
      if into == ToReady {
        TaskListMoveTail(curtask, tasksReady, ready);
        ZombiesKept();
        ready := ready + [curtask];
      } else {
        TaskListMoveTail(curtask, tasksZombie, zombie);
        ReadyKept();
        zombie := zombie + [curtask];
      }
    }

    /** task_unlink_from(curtask, &tasks_ready), for the task that was chosen. */
    method TakeNext(next: Task)
      requires ListsValid() && ready != [] && ready[0] == next
      modifies tasksReady, all`listNext, all`listPrev, this`ready
      ensures ListsValid() && ready == old(ready)[1..]
      ensures IsUnlinked(next) && next !in ready && next !in zombie
      ensures View() == old(View()).(ready := ready)
    {
      hide ListIs, IsUnlinked, RemoveAt, Infos;
      HeadOnce();
      TaskUnlinkFrom(next, tasksReady, ready, 0);
      ZombiesKept();
      ready := ready[1..];
    }

    /** mi_switch up to and including md_switch; `spl` is the local that stays on the stack of
        the task switched away.  An exit that finds nobody ready breaks the lists: see ExitAlone. */
    method MiSwitchAway(into: Into) returns (spl: nat)
      requires Valid()
      modifies this`curtask, this`ready, this`zombie, this`mode, this`curspl, this`masked
      modifies tasksReady, tasksZombie, all
      ensures View() == DoMiSwitch(old(View()), into) && spl == old(curspl)
      ensures Valid() <==> into == ToReady || old(ready) != []
      ensures curtask == (if old(ready) == [] then old(curtask) else old(ready)[0]) && curspl == 1 && masked
      ensures ready == if old(ready) == [] then []
                       else old(ready)[1..] + if into == ToReady then [old(curtask)] else []
      ensures zombie == old(zombie) + if into == ToReady then [] else [old(curtask)]
      ensures !Valid() ==> Stranded(old(zombie))
    {
      hide Valid, ListsValid, Infos, View, Stranded;
      NextIsHead();
      CurrentIsKnown();
      ghost var v0 := View();
      ViewOf();
      var next := tasksReady.head;
      if next == null && into == ToZombie {
        spl := ExitAlone();
        MiSwitchEffect(v0, into);
        ViewOf();
        return;
      }
      QueueCurrent(into);
      if next == null {
        next := curtask;
      }
      assert ready != [] && ready[0] == next;
      spl := SplHigh();
      PushFrame(Switch(spl));
      SwitchTo(next);
      MiSwitchEffect(v0, into);
      ViewOf();
    }

    /** The current task is the tail of the zombie list but linked to nothing; if that list was
        not empty, it is no list any more. */
    ghost predicate Stranded(zombiesBefore: seq<Task>)
      reads this`curtask, tasksReady, tasksZombie, all`listNext, all`listPrev, this`zombie, this`all
    {
      && zombie == zombiesBefore + [curtask] && (forall t :: t in zombie ==> t in all)
      && ListIs(tasksReady, []) && IsUnlinked(curtask) && tasksZombie.tail == curtask
      && tasksZombie.head == if zombiesBefore == [] then curtask else zombiesBefore[0]
    }

    /** Then nothing can be the list. */
    lemma StrandedIsNoList(zombiesBefore: seq<Task>, s: seq<Task>)
      requires Stranded(zombiesBefore) && zombiesBefore != [] && zombiesBefore[0] != curtask
      ensures !ListIs(tasksZombie, s)
    {
    }

    /** The same steps of mi_switch when the ready list is empty: the task queues itself among
        the zombies, is its own successor, and is unlinked as if it were in the ready list. */
    method ExitAlone() returns (spl: nat)
      requires Valid() && ready == []
      modifies this`zombie, this`ready, this`mode, this`curspl, this`masked, tasksReady, tasksZombie, all
      ensures View() == DoMiSwitch(old(View()), ToZombie) && spl == old(curspl)
      ensures !Valid() && Stranded(old(zombie))
    {
      hide Valid, Infos, View, DoMiSwitch, Stranded;
      ghost var v0, zombies := View(), zombie;
      CurrentIsKnown();
      ViewOf();
      QueueCurrent(ToZombie);
      spl := SplHigh();
      PushFrame(Switch(spl));
      UnlinkFromEmpty(zombies);
      MiSwitchEffect(v0, ToZombie);
    }

    /** task_unlink_from(curtask, &tasks_ready), for a task that is in the other list. */
    method UnlinkFromEmpty(ghost zombiesBefore: seq<Task>)
      requires ListsValid() && ready == [] && zombie == zombiesBefore + [curtask] && curtask in all
      modifies this`mode, tasksReady, all`listNext, all`listPrev
      ensures Stranded(zombiesBefore) && !Valid()
      ensures View() == old(View()).(mode := Resuming)
    {
      hide Infos;
      LastLinks(tasksZombie, zombie);
      if curtask.listPrev != null {
        curtask.listPrev.listNext := curtask.listNext;
      }
      // Nothing follows it, and it is neither end of the empty list.
      assert curtask.listNext == null && tasksReady.head == null && tasksReady.tail == null;
      curtask.listNext := null;
      curtask.listPrev := null;
      mode := Resuming;
    }

    /** The frame that mi_switch leaves on its own stack. */
    ghost method PushFrame(f: Frame)
      requires curtask in all
      modifies curtask`stack
      ensures View() == Push(old(View()), f)
    {
      hide Infos;
      InfoOf(curtask);
      curtask.stack := curtask.stack + [f];
      OnlyChanged(curtask);
    }

    /** The assignment of curtask, its unlinking, and the switch of stacks. */
    method SwitchTo(next: Task)
      requires ListsValid() && ready != [] && ready[0] == next
      modifies this`curtask, this`mode, tasksReady, all`listNext, all`listPrev, this`ready
      ensures Valid()
      ensures next in View().tasks
      ensures View() == old(View()).(cur := next, ready := old(ready)[1..],
                                     mode := if View().tasks[next].stack == [] then Starting else Resuming)
    {
      hide Infos, ListIs, IsUnlinked;
      assert next in all by { assert next in ready; }
      InfoOf(next);
      curtask := next;
      TakeNext(next);
      mode := if next.stack == [] then Starting else Resuming;
    }

    lemma ViewOf()
      ensures View().cur == curtask && View().ready == ready && View().zombie == zombie && View().curspl == curspl
      ensures View().masked == masked
      ensures Valid() ==> curtask in View().tasks && (ready != [] ==> ready[0] in View().tasks)
    {
    }

    lemma CurrentIsKnown()
      requires Valid()
      ensures curtask in all
    {
    }

    lemma HeadOnce()
      requires ListIs(tasksReady, ready) && ready != []
      ensures ready[0] in ready && ready[0] !in ready[1..] && RemoveAt(ready, 0) == ready[1..]
    {
    }

    lemma NextIsHead()
      requires Valid()
      ensures tasksReady.head == if ready == [] then null else ready[0]
      ensures ready != [] ==> ready[0] in all
    {
    }

    /** mi_switch after md_switch, back on the stack that holds `spl`. */
    method MiSwitchBack(spl: nat)
      requires Valid() && Top(View()) == Some(Switch(spl))
      modifies this`mode, this`curspl, this`masked, curtask`spl, curtask`stack
      ensures Valid() && View() == DoResume(old(View()))
      ensures curtask.spl == curspl == (if spl > 0 then 1 else 0) && masked == (spl > 0) && mode == Running
    {
      hide Valid, ListsValid, Infos;
      CurrentIsKnown();
      InfoOf(curtask);
      label Popping:
      curtask.stack := curtask.stack[..|curtask.stack| - 1];
      OnlyChanged@Popping(curtask);
      ghost var popped := View();
      assert popped == Pop(old(View()));
      var _ := Splx(spl);
      assert View() == DoSplX(popped, spl);
      mode := Running;
    }

    /** mi_task_startup up to the call of the entry function. */
    method TaskStartup()
      requires Valid()
      modifies this`mode, this`curspl, this`masked, curtask`spl
      ensures Valid() && View() == DoSpl0(old(View())).(mode := Running)
      ensures curtask.spl == 0 && curspl == 0 && !masked && mode == Running
    {
      hide Valid, ListsValid, Infos;
      var _ := SplZero();
      mode := Running;
    }
  }
}

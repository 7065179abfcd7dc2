/**
 Registers and stacks across context switches and traps: aarch64_switch
 (kern/arch/aarch64/switch.S), the trap frames of kern/arch/aarch64/interrupt.S, and the forged
 first frame of kern/arch/aarch64/pcb.c.
 */
module ContextSwitch {

  type Memory = map<nat, nat>   // 64-bit words by address

  function Read(mem: Memory, a: nat): nat { if a in mem then mem[a] else 0 }

  const REGISTERS := 31         // x0 to x30
  const SWITCH_FRAME := 256
  const TRAP_FRAME := 288
  const STACK_SIZE := 4096

  /** The general registers, sp, and the exception return state. */
  datatype Cpu = Cpu(x: seq<nat>, sp: nat, elr: nat, spsr: nat)

  predicate IsCpu(c: Cpu) { |c.x| == REGISTERS }

  /** Consecutive words written upwards from `a`, which is 8-byte aligned as the stack pointer
      is; module Assembly has the instructions that write them. */
  function Store(mem: Memory, a: nat, vals: seq<nat>): Memory
    decreases |vals|
  {
    if vals == [] then mem else Store(mem[a := vals[0]], a + 8, vals[1..])
  }

  /** Consecutive words read. */
  function Load(mem: Memory, a: nat, n: nat): (vals: seq<nat>)
    ensures |vals| == n && forall i :: 0 <= i < n ==> vals[i] == Read(mem, a + 8 * i)
  {
    seq(n, i requires 0 <= i < n => Read(mem, a + 8 * i))
  }

  /** aarch64_switch, called with the pcb addresses in x0 and x1: x0 to x30 go below sp, sp into
      the old pcb, the new sp comes out of the new pcb, and x0 to x30 come from above it. */
  function Switched(c: Cpu, mem: Memory): (r: (Cpu, Memory))
    requires IsCpu(c) && c.sp >= SWITCH_FRAME
    ensures IsCpu(r.0)
  {
    var sp := c.sp - SWITCH_FRAME;
    var mem' := Store(mem, sp, c.x)[c.x[0] := sp];
    var sp' := Read(mem', c.x[1]);
    (c.(x := Load(mem', sp', REGISTERS), sp := sp' + SWITCH_FRAME), mem')
  }

  /** The words of a trap frame: vector, x0 to x30, esr, elr, spsr, far. */
  function TrapWords(c: Cpu, vector: nat, esr: nat, far: nat): seq<nat> {
    [vector] + c.x + [esr, c.elr, c.spsr, far]
  }

  /** define_entry and finish_trap, up to the call of aarch64_trapentry. */
  function Trapped(c: Cpu, mem: Memory, vector: nat, esr: nat, far: nat): (r: (Cpu, Memory))
    requires IsCpu(c) && c.sp >= TRAP_FRAME
    ensures IsCpu(r.0)
  {
    var sp := c.sp - TRAP_FRAME;
    (c.(x := c.x[0 := sp][1 := c.elr][2 := c.spsr][3 := far], sp := sp), Store(mem, sp, TrapWords(c, vector, esr, far)))
  }

  /** The rest of finish_trap, ending in eret. */
  function Returned(c: Cpu, mem: Memory): (r: Cpu)
    ensures IsCpu(r)
  {
    Cpu(Load(mem, c.sp + 8, REGISTERS), c.sp + TRAP_FRAME, Read(mem, c.sp + 8 * 33), Read(mem, c.sp + 8 * 34))
  }

  /** md_init_new_task_pcb. */
  function NewPcb(mem: Memory, pcb: nat, stack: nat, startup: nat, fn: nat, userdata: nat): Memory {
    var sp := stack + STACK_SIZE - SWITCH_FRAME;
    mem[pcb := sp][sp + 0xF0 := startup][sp := fn][sp + 8 := userdata]
  }

  // ----- suspended contexts --------------------------------------------------------------

  /** What a suspended call must get back. */
  datatype Context =
    | SwitchContext(x: seq<nat>, sp: nat)
    | TrapContext(x: seq<nat>, sp: nat, elr: nat, spsr: nat)

  function FrameSize(c: Context): nat { if c.SwitchContext? then SWITCH_FRAME else TRAP_FRAME }

  function FrameAt(c: Context): int { c.sp - FrameSize(c) }

  /** The frame in memory holds the context. */
  ghost predicate Holds(mem: Memory, c: Context) {
    && |c.x| == REGISTERS && FrameAt(c) >= 0
    && match c
       case SwitchContext(x, sp) => forall i :: 0 <= i < REGISTERS ==> Read(mem, sp - SWITCH_FRAME + 8 * i) == x[i]
       case TrapContext(x, sp, elr, spsr) =>
         && (forall i :: 0 <= i < REGISTERS ==> Read(mem, sp - TRAP_FRAME + 8 + 8 * i) == x[i])
         && Read(mem, sp - TRAP_FRAME + 8 * 33) == elr && Read(mem, sp - TRAP_FRAME + 8 * 34) == spsr
  }

  /** Only the words of the frame matter. */
  lemma HoldsElsewhere(mem: Memory, mem': Memory, c: Context)
    requires Holds(mem, c)
    requires forall a: nat :: FrameAt(c) <= a < c.sp ==> Read(mem', a) == Read(mem, a)
    ensures Holds(mem', c)
  {
  }

  datatype Task = Task(base: nat, top: nat, pcb: nat, frames: seq<Context>)

  /** The lowest address in use above the running code: the innermost frame, or the stack top. */
  function Floor(t: Task): int {
    if t.frames == [] then t.top else FrameAt(t.frames[|t.frames| - 1])
  }

  /** The frames lie on the task's stack, each below the one before, and hold their contexts. */
  ghost predicate Stacked(mem: Memory, t: Task)
    decreases |t.frames|
  {
    if t.frames == [] then t.base <= t.top
    else
      var n := |t.frames| - 1;
      var outer := t.(frames := t.frames[..n]);
      Stacked(mem, outer) && Holds(mem, t.frames[n]) && t.base <= FrameAt(t.frames[n]) && t.frames[n].sp <= Floor(outer)
  }

  lemma {:induction false} StackedElsewhere(mem: Memory, mem': Memory, t: Task)
    requires Stacked(mem, t)
    requires forall a: nat :: Floor(t) <= a < t.top ==> Read(mem', a) == Read(mem, a)
    ensures Stacked(mem', t)
    ensures t.base <= Floor(t) <= t.top
    decreases |t.frames|
  {
    if t.frames != [] {
      var n := |t.frames| - 1;
      var outer := t.(frames := t.frames[..n]);
      FloorBounds(mem, outer);
      StackedElsewhere(mem, mem', outer);
      HoldsElsewhere(mem, mem', t.frames[n]);
    }
  }

  lemma {:induction false} FloorBounds(mem: Memory, t: Task)
    requires Stacked(mem, t)
    ensures t.base <= Floor(t) <= t.top
    decreases |t.frames|
  {
    if t.frames != [] {
      FloorBounds(mem, t.(frames := t.frames[..|t.frames| - 1]));
    }
  }

  // ----- runs ------------------------------------------------------------------------------

  datatype State = State(cpu: Cpu, mem: Memory, cur: nat, tasks: map<nat, Task>)

  datatype Event =
    | Compute(cpu: Cpu, mem: Memory)                     // the current task runs compiled code
    | TrapEntry(pc: nat, pstate: nat, vector: nat, esr: nat, far: nat)
    | TrapExit
    | SwitchTo(to: nat)
    | NewTask(t: nat, base: nat, pcb: nat, startup: nat, fn: nat, userdata: nat)

  /** Words that running code leaves alone: pcbs, other stacks, and its own frames. */
  ghost predicate Protected(s: State, a: nat)
    requires s.cur in s.tasks
  {
    exists t :: t in s.tasks && IsProtectedBy(s.tasks[t], t == s.cur, a)
  }

  predicate IsProtectedBy(t: Task, current: bool, a: nat) {
    a == t.pcb || (if current then Floor(t) <= a < t.top else t.base <= a < t.top)
  }

  ghost predicate Enabled(s: State, e: Event) {
    && s.cur in s.tasks && IsCpu(s.cpu)
    && var t := s.tasks[s.cur];
    match e
    case Compute(cpu, mem) =>
      IsCpu(cpu) && t.base <= cpu.sp <= Floor(t) && forall a: nat :: Protected(s, a) ==> Read(mem, a) == Read(s.mem, a)
    case TrapEntry(_, _, _, _, _) => t.base + TRAP_FRAME <= s.cpu.sp
    case TrapExit => t.frames != [] && t.frames[|t.frames| - 1].TrapContext?
      && s.cpu.sp == FrameAt(t.frames[|t.frames| - 1])
    case SwitchTo(to) =>
      && to in s.tasks && t.base + SWITCH_FRAME <= s.cpu.sp
      && s.cpu.x[0] == t.pcb && s.cpu.x[1] == s.tasks[to].pcb
      && (to != s.cur ==> s.tasks[to].frames != [])
      && (to != s.cur ==> s.tasks[to].frames[|s.tasks[to].frames| - 1].SwitchContext?)
    case NewTask(n, base, pcb, _, _, _) =>
      n !in s.tasks && forall u :: u in s.tasks ==> Apart(s.tasks[u], Task(base, base + STACK_SIZE, pcb, []))
  }

  /** Two tasks share neither stack nor pcb, and no pcb lies on a stack. */
  predicate Apart(t: Task, u: Task) {
    && (t.top <= u.base || u.top <= t.base) && t.pcb != u.pcb
    && !(t.base <= u.pcb < t.top) && !(u.base <= t.pcb < u.top)
    && !(t.base <= t.pcb < t.top) && !(u.base <= u.pcb < u.top)
  }

  function PushFrame(t: Task, c: Context): Task { t.(frames := t.frames + [c]) }

  function PopFrame(t: Task): Task
    requires t.frames != []
  {
    t.(frames := t.frames[..|t.frames| - 1])
  }

  /** The forged frame asks for: fn in x0, userdata in x1, mi_task_startup as return address. */
  function FirstContext(mem: Memory, base: nat, startup: nat, fn: nat, userdata: nat): Context {
    var sp := base + STACK_SIZE;
    SwitchContext(Load(mem, sp - SWITCH_FRAME, REGISTERS)[30 := startup][0 := fn][1 := userdata], sp)
  }

  ghost function Step(s: State, e: Event): State
    requires Enabled(s, e)
  {
    var t := s.tasks[s.cur];
    match e
    case Compute(cpu, mem) => s.(cpu := cpu, mem := mem)
    case TrapEntry(pc, pstate, vector, esr, far) =>
      var (cpu, mem) := Trapped(s.cpu.(elr := pc, spsr := pstate), s.mem, vector, esr, far);
      State(cpu, mem, s.cur, s.tasks[s.cur := PushFrame(t, TrapContext(s.cpu.x, s.cpu.sp, pc, pstate))])
    case TrapExit =>
      State(Returned(s.cpu, s.mem), s.mem, s.cur, s.tasks[s.cur := PopFrame(t)])
    case SwitchTo(to) =>
      var (cpu, mem) := Switched(s.cpu, s.mem);
      var tasks := s.tasks[s.cur := PushFrame(t, SwitchContext(s.cpu.x, s.cpu.sp))];
      State(cpu, mem, to, tasks[to := PopFrame(tasks[to])])
    case NewTask(n, base, pcb, startup, fn, userdata) =>
      s.(mem := NewPcb(s.mem, pcb, base, startup, fn, userdata),
         tasks := s.tasks[n := Task(base, base + STACK_SIZE, pcb, [FirstContext(s.mem, base, startup, fn, userdata)])])
  }

  ghost predicate Suspended(mem: Memory, t: Task) {
    && t.frames != [] && t.frames[|t.frames| - 1].SwitchContext?
    && Read(mem, t.pcb) == FrameAt(t.frames[|t.frames| - 1])
  }

  ghost predicate TaskInv(s: State, t: nat)
    requires t in s.tasks
  {
    Stacked(s.mem, s.tasks[t]) && (t != s.cur ==> Suspended(s.mem, s.tasks[t]))
  }

  ghost predicate AllApart(tasks: map<nat, Task>) {
    && (forall t, u :: t in tasks && u in tasks && t != u ==> Apart(tasks[t], tasks[u]))
    && (forall t :: t in tasks ==> !(tasks[t].base <= tasks[t].pcb < tasks[t].top))
  }

  ghost predicate Inv(s: State) {
    && IsCpu(s.cpu) && s.cur in s.tasks && AllApart(s.tasks)
    && s.tasks[s.cur].base <= s.cpu.sp <= Floor(s.tasks[s.cur])
    && forall t :: t in s.tasks ==> TaskInv(s, t)
  }

  /** A task whose stack above its floor and whose pcb were left alone stays as it was. */
  lemma TaskInvElsewhere(mem: Memory, mem': Memory, t: Task)
    requires Stacked(mem, t)
    requires forall a: nat :: Floor(t) <= a < t.top || a == t.pcb ==> Read(mem', a) == Read(mem, a)
    ensures Stacked(mem', t) && (Suspended(mem, t) ==> Suspended(mem', t))
  {
    StackedElsewhere(mem, mem', t);
  }

  lemma ComputeKeepsInv(s: State, cpu: Cpu, mem: Memory)
    requires Inv(s) && Enabled(s, Compute(cpu, mem))
    ensures Inv(Step(s, Compute(cpu, mem)))
  {
    forall t | t in s.tasks
      ensures TaskInv(s.(cpu := cpu, mem := mem), t)
    {
      assert TaskInv(s, t);
      FloorBounds(s.mem, s.tasks[t]);
      forall a: nat | Floor(s.tasks[t]) <= a < s.tasks[t].top || a == s.tasks[t].pcb
        ensures Read(mem, a) == Read(s.mem, a)
      {
        assert IsProtectedBy(s.tasks[t], t == s.cur, a);
        assert Protected(s, a);
      }
      TaskInvElsewhere(s.mem, mem, s.tasks[t]);
    }
  }

  /** A write of the current task's own, below its floor, or to its pcb. */
  lemma OthersKept(s: State, mem: Memory, low: nat)
    requires Inv(s) && s.tasks[s.cur].base <= low
    requires forall a: nat :: Read(mem, a) != Read(s.mem, a) ==>
             low <= a < Floor(s.tasks[s.cur]) || a == s.tasks[s.cur].pcb
    ensures forall t :: t in s.tasks ==> Stacked(mem, s.tasks[t])
    ensures forall t :: t in s.tasks && t != s.cur ==> Suspended(mem, s.tasks[t])
  {
    var c := s.tasks[s.cur];
    assert TaskInv(s, s.cur);
    FloorBounds(s.mem, c);
    forall t | t in s.tasks
      ensures Stacked(mem, s.tasks[t]) && (t != s.cur ==> Suspended(mem, s.tasks[t]))
    {
      assert TaskInv(s, t);
      FloorBounds(s.mem, s.tasks[t]);
      assert t != s.cur ==> Apart(s.tasks[t], c);
      StackedElsewhere(s.mem, mem, s.tasks[t]);
    }
  }

  lemma PushStacked(mem: Memory, t: Task, c: Context)
    requires Stacked(mem, t) && Holds(mem, c) && t.base <= FrameAt(c) && c.sp <= Floor(t)
    ensures Stacked(mem, PushFrame(t, c)) && Floor(PushFrame(t, c)) == FrameAt(c)
  {
    var t' := PushFrame(t, c);
    assert t'.frames[..|t.frames|] == t.frames;
    assert t'.(frames := t'.frames[..|t'.frames| - 1]) == t;
  }

  /** Only the current task's frames and what it may write have changed. */
  lemma CurrentKeepsInv(s: State, s': State, t': Task)
    requires Inv(s) && s'.cur == s.cur && s'.tasks == s.tasks[s.cur := t'] && IsCpu(s'.cpu)
    requires var t := s.tasks[s.cur]; t'.base == t.base && t'.top == t.top && t'.pcb == t.pcb
    requires Stacked(s'.mem, t') && t'.base <= s'.cpu.sp <= Floor(t')
    requires forall u :: u in s.tasks && u != s.cur ==> Stacked(s'.mem, s.tasks[u]) && Suspended(s'.mem, s.tasks[u])
    ensures Inv(s')
  {
    hide Stacked, Suspended, Floor, Apart;
    ApartKept(s.tasks, s'.tasks);
  }

  lemma TrapEntryKeepsInv(s: State, e: Event)
    requires Inv(s) && Enabled(s, e) && e.TrapEntry?
    ensures Inv(Step(s, e))
  {
    hide Stacked, Holds, Suspended, Trapped;
    var t := s.tasks[s.cur];
    var cpu := s.cpu.(elr := e.pc, spsr := e.pstate);
    var c := TrapContext(s.cpu.x, s.cpu.sp, e.pc, e.pstate);
    var s' := Step(s, e);
    assert TaskInv(s, s.cur);
    TrapHolds(cpu, s.mem, e.vector, e.esr, e.far);
    OthersKept(s, s'.mem, s.cpu.sp - TRAP_FRAME);
    PushStacked(s'.mem, t, c);
    CurrentKeepsInv(s, s', PushFrame(t, c));
  }

  /** The trap frame holds what the trap interrupted, and nothing else is written. */
  lemma TrapHolds(c: Cpu, mem: Memory, vector: nat, esr: nat, far: nat)
    requires IsCpu(c) && c.sp >= TRAP_FRAME
    ensures var mem' := Trapped(c, mem, vector, esr, far).1;
            Trapped(c, mem, vector, esr, far).0.sp == c.sp - TRAP_FRAME
            && Holds(mem', TrapContext(c.x, c.sp, c.elr, c.spsr))
            && forall a: nat :: Read(mem', a) != Read(mem, a) ==> c.sp - TRAP_FRAME <= a < c.sp
  {
    hide Store, TrapWords, Read;
    var vals := TrapWords(c, vector, esr, far);
    TrapLayout(c, vector, esr, far);
    var a := c.sp - TRAP_FRAME;
    StoreRead(mem, a, vals);
    var mem' := Store(mem, a, vals);
    forall i | 0 <= i < REGISTERS
      ensures Read(mem', a + 8 + 8 * i) == c.x[i]
    {
      assert Read(mem', a + 8 * (i + 1)) == vals[i + 1];
    }
  }

  lemma TrapLayout(c: Cpu, vector: nat, esr: nat, far: nat)
    requires IsCpu(c)
    ensures var vals := TrapWords(c, vector, esr, far);
            |vals| == 36 && vals[33] == c.elr && vals[34] == c.spsr
            && forall i :: 0 <= i < REGISTERS ==> vals[i + 1] == c.x[i]
  {
  }

  /** Stored words are read back, and no others have changed. */
  lemma {:induction false} StoreRead(mem: Memory, a: nat, vals: seq<nat>)
    ensures forall i :: 0 <= i < |vals| ==> Read(Store(mem, a, vals), a + 8 * i) == vals[i]
    ensures forall b: nat :: Read(Store(mem, a, vals), b) != Read(mem, b) ==> a <= b < a + 8 * |vals|
    decreases |vals|
  {
    if vals != [] {
      StoreRead(mem[a := vals[0]], a + 8, vals[1..]);
      forall i | 0 <= i < |vals|
        ensures Read(Store(mem, a, vals), a + 8 * i) == vals[i]
      {
        if i > 0 {
          assert a + 8 * i == a + 8 + 8 * (i - 1) && vals[i] == vals[1..][i - 1];
        }
      }
    }
  }

  /** The handler is entered with the address of the frame in x0; the words it reads through it,
      at the offsets of struct trapframe, are the vector, the interrupted x0 to x30, the syndrome,
      the interrupted program counter and processor state, and the fault address. */
  lemma TrapFrameIs(c: Cpu, mem: Memory, vector: nat, esr: nat, far: nat)
    requires IsCpu(c) && c.sp >= 288
    ensures var (c', mem') := Trapped(c, mem, vector, esr, far); var frame := c.sp - 288;
            && c'.sp == c'.x[0] == frame && c'.elr == c.elr && c'.spsr == c.spsr
            && c'.x[1] == c.elr && c'.x[2] == c.spsr && c'.x[3] == far
            && (forall i :: 4 <= i < 31 ==> c'.x[i] == c.x[i])
            && Read(mem', frame) == vector && (forall i :: 0 <= i < 31 ==> Read(mem', frame + 8 + 8 * i) == c.x[i])
            && Read(mem', frame + 256) == esr && Read(mem', frame + 264) == c.elr
            && Read(mem', frame + 272) == c.spsr && Read(mem', frame + 280) == far
            && forall a: nat :: a < frame || c.sp <= a ==> Read(mem', a) == Read(mem, a)
  {
    hide Store, Read;
    var vals := TrapWords(c, vector, esr, far);
    var mem' := Store(mem, c.sp - 288, vals);
    assert |vals| == 36 && vals[0] == vector && vals[32] == esr && vals[33] == c.elr && vals[34] == c.spsr
           && vals[35] == far;
    StoreRead(mem, c.sp - 288, vals);
    assert Read(mem', c.sp - 288 + 8 * 0) == vals[0] && Read(mem', c.sp - 288 + 8 * 32) == vals[32];
    assert Read(mem', c.sp - 288 + 8 * 33) == vals[33] && Read(mem', c.sp - 288 + 8 * 34) == vals[34];
    assert Read(mem', c.sp - 288 + 8 * 35) == vals[35];
    forall i | 0 <= i < 31
      ensures Read(mem', c.sp - 288 + 8 + 8 * i) == c.x[i]
    {
      assert Read(mem', c.sp - 288 + 8 * (i + 1)) == vals[i + 1];
    }
  }

  /** So in every run, at every trap. */
  lemma HandlerSees(s: State, e: Event)
    requires Enabled(s, e) && e.TrapEntry?
    ensures var s' := Step(s, e); var frame := s.cpu.sp - 288;
            && |s'.cpu.x| == 31 && s'.cpu.x[0] == s'.cpu.sp == frame && s'.cur == s.cur
            && Read(s'.mem, frame) == e.vector
            && (forall i :: 0 <= i < 31 ==> Read(s'.mem, frame + 8 + 8 * i) == s.cpu.x[i])
            && Read(s'.mem, frame + 256) == e.esr && Read(s'.mem, frame + 264) == e.pc
            && Read(s'.mem, frame + 272) == e.pstate && Read(s'.mem, frame + 280) == e.far
  {
    TrapFrameIs(s.cpu.(elr := e.pc, spsr := e.pstate), s.mem, e.vector, e.esr, e.far);
    hide Trapped, Read, Inv;
  }

  /** The switch, word by word, when the pcb is not in the frame: x0 to x30 in the 248 bytes from
      256 below sp, that address in the old pcb; then the registers from the frame the new pcb
      points to, and sp behind it. */
  lemma SwitchIs(c: Cpu, mem: Memory)
    requires IsCpu(c) && c.sp >= 256 && !(c.sp - 256 <= c.x[0] < c.sp)
    ensures var (c', mem') := Switched(c, mem); var frame := c.sp - 256;
            && (forall i :: 0 <= i < 31 ==> Read(mem', frame + 8 * i) == c.x[i]) && Read(mem', c.x[0]) == frame
            && (forall a: nat :: (a < frame || frame + 248 <= a) && a != c.x[0] ==> Read(mem', a) == Read(mem, a))
            && (forall i :: 0 <= i < 31 ==> c'.x[i] == Read(mem', Read(mem', c.x[1]) + 8 * i))
            && c'.sp == Read(mem', c.x[1]) + 256 && c'.elr == c.elr && c'.spsr == c.spsr
  {
    StoreRead(mem, c.sp - 256, c.x);
    hide Store;
  }

  /** The forged frame, word by word: sp 256 below the top of the 4096 bytes, and there fn, userdata
      and, as the return address, mi_task_startup. */
  lemma NewPcbIs(mem: Memory, pcb: nat, stack: nat, startup: nat, fn: nat, userdata: nat)
    requires !(stack <= pcb < stack + 4096)
    ensures var mem' := NewPcb(mem, pcb, stack, startup, fn, userdata); var sp := stack + 3840;
            && Read(mem', pcb) == sp && Read(mem', sp) == fn && Read(mem', sp + 8) == userdata
            && Read(mem', sp + 240) == startup
            && forall a: nat :: a !in {pcb, sp, sp + 8, sp + 240} ==> Read(mem', a) == Read(mem, a)
  {
  }

  function Innermost(t: Task): Context
    requires t.frames != []
  {
    t.frames[|t.frames| - 1]
  }

  /** Leaving the innermost frame: it held its context, and the rest of the stack is in order. */
  lemma Unstack(mem: Memory, t: Task)
    requires Stacked(mem, t) && t.frames != []
    ensures Holds(mem, Innermost(t)) && Stacked(mem, PopFrame(t)) && t.base <= Innermost(t).sp <= Floor(PopFrame(t))
  {
  }

  /** The end of finish_trap gives the interrupted code everything back. */
  lemma TrapReturns(mem: Memory, c: Cpu, f: Context)
    requires f.TrapContext? && Holds(mem, f) && c.sp == FrameAt(f)
    ensures Returned(c, mem) == Cpu(f.x, f.sp, f.elr, f.spsr)
  {
    assert Load(mem, c.sp + 8, REGISTERS) == f.x;
  }

  lemma TrapExitKeepsInv(s: State)
    requires Inv(s) && Enabled(s, TrapExit)
    ensures Inv(Step(s, TrapExit))
    ensures var f := Innermost(s.tasks[s.cur]);
            f.TrapContext? && Step(s, TrapExit).cpu == Cpu(f.x, f.sp, f.elr, f.spsr)
  {
    var t := s.tasks[s.cur];
    assert TaskInv(s, s.cur);
    Unstack(s.mem, t);
    TrapReturns(s.mem, s.cpu, Innermost(t));
    hide Stacked, Holds, Suspended;
    assert forall u :: u in s.tasks ==> TaskInv(s, u);
    CurrentKeepsInv(s, Step(s, TrapExit), PopFrame(t));
  }

  /** The first half of aarch64_switch leaves every task, the running one too, suspended. */
  lemma AllSuspended(s: State, to: nat)
    requires Inv(s) && Enabled(s, SwitchTo(to))
    ensures var mem := Switched(s.cpu, s.mem).1;
            var pushed := PushFrame(s.tasks[s.cur], SwitchContext(s.cpu.x, s.cpu.sp));
            Stacked(mem, pushed) && Suspended(mem, pushed)
            && forall u :: u in s.tasks && u != s.cur ==> Stacked(mem, s.tasks[u]) && Suspended(mem, s.tasks[u])
  {
    hide Stacked;
    var t := s.tasks[s.cur];
    var c := SwitchContext(s.cpu.x, s.cpu.sp);
    var mem := Switched(s.cpu, s.mem).1;
    assert TaskInv(s, s.cur);
    FloorBounds(s.mem, t);
    StoreRead(s.mem, s.cpu.sp - SWITCH_FRAME, s.cpu.x);
    OthersKept(s, mem, s.cpu.sp - SWITCH_FRAME);
    assert Holds(mem, c) by {
      assert !(t.base <= t.pcb < t.top);
    }
    PushStacked(mem, t, c);
  }

  lemma LoadsHeld(mem: Memory, c: Context, a: nat)
    requires c.SwitchContext? && Holds(mem, c) && a == FrameAt(c)
    ensures Load(mem, a, REGISTERS) == c.x
  {
  }

  /** The second half takes up the innermost context of the task switched to. */
  lemma ResumesInnermost(mem: Memory, t: Task)
    requires Stacked(mem, t) && Suspended(mem, t)
    ensures var c := Innermost(t);
            Load(mem, Read(mem, t.pcb), REGISTERS) == c.x && Read(mem, t.pcb) + SWITCH_FRAME == c.sp
            && Stacked(mem, PopFrame(t)) && t.base <= c.sp <= Floor(PopFrame(t))
  {
    hide Stacked, Holds, Load;
    Unstack(mem, t);
    LoadsHeld(mem, Innermost(t), Read(mem, t.pcb));
  }

  /** Frames do not matter to who owns what. */
  lemma ApartKept(tasks: map<nat, Task>, tasks': map<nat, Task>)
    requires AllApart(tasks) && tasks'.Keys == tasks.Keys
    requires forall t :: t in tasks ==>
               tasks'[t].base == tasks[t].base && tasks'[t].top == tasks[t].top && tasks'[t].pcb == tasks[t].pcb
    ensures AllApart(tasks')
  {
    forall u, v | u in tasks' && v in tasks' && u != v
      ensures Apart(tasks'[u], tasks'[v])
    {
      assert Apart(tasks[u], tasks[v]);
    }
  }

  lemma SwitchKeepsInv(s: State, to: nat)
    requires Inv(s) && Enabled(s, SwitchTo(to))
    ensures Inv(Step(s, SwitchTo(to)))
    ensures var c := if to == s.cur then SwitchContext(s.cpu.x, s.cpu.sp) else Innermost(s.tasks[to]);
            var cpu := Step(s, SwitchTo(to)).cpu; cpu.x == c.x && cpu.sp == c.sp
  {
    hide Stacked, Suspended, Floor, Store, Apart;
    AllSuspended(s, to);
    var pushed := PushFrame(s.tasks[s.cur], SwitchContext(s.cpu.x, s.cpu.sp));
    var tasks := s.tasks[s.cur := pushed];
    var s' := Step(s, SwitchTo(to));
    assert pushed.frames[..|s.tasks[s.cur].frames|] == s.tasks[s.cur].frames;
    SuspendedHasFrames(s'.mem, tasks[to]);
    ResumesInnermost(s'.mem, tasks[to]);
    ApartKept(s.tasks, s'.tasks);
    forall u | u in s'.tasks
      ensures TaskInv(s', u)
    {
      assert u != to ==> s'.tasks[u] == tasks[u];
    }
  }

  lemma SuspendedHasFrames(mem: Memory, t: Task)
    requires Suspended(mem, t)
    ensures t.frames != []
  {
  }

  lemma NewTaskKeepsInv(s: State, e: Event)
    requires Inv(s) && Enabled(s, e) && e.NewTask?
    ensures Inv(Step(s, e))
  {
    hide NewPcb, FirstContext, Stacked, Suspended, Holds, Apart, Floor, FrameAt, Read;
    var s' := Step(s, e);
    var made := Task(e.base, e.base + STACK_SIZE, e.pcb, []);
    var c := FirstContext(s.mem, e.base, e.startup, e.fn, e.userdata);
    assert forall u :: u in s.tasks ==> Apart(s.tasks[u], made);
    PcbOutside(s.tasks[s.cur], made);
    NewPcbHolds(s.mem, e.pcb, e.base, e.startup, e.fn, e.userdata);
    NewTaskSuspended(s'.mem, made, c);
    ApartAdded(s.tasks, e.t, made, [c]);
    forall u | u in s.tasks
      ensures TaskInv(s', u)
    {
      assert TaskInv(s, u);
      OldTaskKept(s.mem, s'.mem, s.tasks[u], made);
    }
  }

  lemma PcbOutside(t: Task, u: Task)
    requires Apart(t, u)
    ensures !(u.base <= u.pcb < u.top)
  {
  }

  lemma ApartAdded(tasks: map<nat, Task>, n: nat, made: Task, frames: seq<Context>)
    requires AllApart(tasks) && n !in tasks && forall u :: u in tasks ==> Apart(tasks[u], made)
    requires !(made.base <= made.pcb < made.top)
    ensures AllApart(tasks[n := made.(frames := frames)])
  {
  }

  lemma OldTaskKept(mem: Memory, mem': Memory, t: Task, u: Task)
    requires Stacked(mem, t) && Apart(t, u)
    requires forall a: nat :: Read(mem', a) != Read(mem, a) ==> a == u.pcb || u.base <= a < u.top
    ensures Stacked(mem', t) && (Suspended(mem, t) ==> Suspended(mem', t))
  {
    FloorBounds(mem, t);
    TaskInvElsewhere(mem, mem', t);
  }

  lemma NewTaskSuspended(mem: Memory, t: Task, c: Context)
    requires t.frames == [] && c.SwitchContext? && Holds(mem, c) && t.base <= FrameAt(c) && c.sp == t.top
    requires Read(mem, t.pcb) == FrameAt(c)
    ensures var t' := t.(frames := [c]); Stacked(mem, t') && Suspended(mem, t')
  {
    PushStacked(mem, t, c);
    assert [] + [c] == [c];
  }

  /** The forged frame is a suspended switch into mi_task_startup. */
  lemma NewPcbHolds(mem: Memory, pcb: nat, base: nat, startup: nat, fn: nat, userdata: nat)
    requires !(base <= pcb < base + STACK_SIZE)
    ensures var mem' := NewPcb(mem, pcb, base, startup, fn, userdata);
            var c := FirstContext(mem, base, startup, fn, userdata);
            Holds(mem', c) && c.SwitchContext? && c.sp == base + STACK_SIZE && FrameAt(c) >= base
            && c.x[0] == fn && c.x[1] == userdata && c.x[30] == startup
            && Read(mem', pcb) == FrameAt(c)
            && forall a: nat :: Read(mem', a) != Read(mem, a) ==> a == pcb || base <= a < base + STACK_SIZE
  {
  }

  lemma StepKeepsInv(s: State, e: Event)
    requires Inv(s) && Enabled(s, e)
    ensures Inv(Step(s, e))
  {
    hide Inv, Enabled, Step;
    match e
    case Compute(cpu, mem) => ComputeKeepsInv(s, cpu, mem);
    case TrapEntry(_, _, _, _, _) => TrapEntryKeepsInv(s, e);
    case TrapExit => TrapExitKeepsInv(s);
    case SwitchTo(to) => SwitchKeepsInv(s, to);
    case NewTask(_, _, _, _, _, _) => NewTaskKeepsInv(s, e);
  }

  /** What can happen next, in any state that keeps the invariant: code of the current task, which
      leaves pcbs, other stacks and its own suspended frames alone; a switch to any task there is,
      called with the two pcbs and room for a frame; a trap wherever there is room for its frame,
      also on top of another; the return of the innermost frame if it is a trap's; and a task in
      memory of its own. */
  lemma EnabledIff(s: State, e: Event)
    requires Inv(s)
    ensures var t := s.tasks[s.cur];
            var floor := if t.frames == [] then t.top
                         else var c := t.frames[|t.frames| - 1]; c.sp - if c.TrapContext? then 288 else 256;
            Enabled(s, e) <==>
            match e
            case Compute(cpu, mem) =>
              && |cpu.x| == 31 && t.base <= cpu.sp <= floor
              && forall u: nat, a: nat {:trigger s.tasks[u], Read(mem, a)} :: u in s.tasks
                   && (a == s.tasks[u].pcb
                       || (if u == s.cur then floor else s.tasks[u].base) <= a < s.tasks[u].top)
                   ==> Read(mem, a) == Read(s.mem, a)
            case TrapEntry(_, _, _, _, _) => t.base + 288 <= s.cpu.sp
            case TrapExit => t.frames != [] && t.frames[|t.frames| - 1].TrapContext? && s.cpu.sp == floor
            case SwitchTo(to) => to in s.tasks && t.base + 256 <= s.cpu.sp
                                 && s.cpu.x[0] == t.pcb && s.cpu.x[1] == s.tasks[to].pcb
            case NewTask(n, base, pcb, _, _, _) =>
              n !in s.tasks && forall u :: u in s.tasks ==> Apart(s.tasks[u], Task(base, base + 4096, pcb, []))
  {
    match e
    case Compute(cpu, mem) => ComputeEnabledIff(s, cpu, mem);
    case SwitchTo(to) =>
      if to in s.tasks {
        assert TaskInv(s, to);
      }
    case _ =>
    hide Stacked, Apart;
  }

  lemma ComputeEnabledIff(s: State, cpu: Cpu, mem: Memory)
    requires Inv(s)
    ensures var t := s.tasks[s.cur];
            Enabled(s, Compute(cpu, mem)) <==>
            && |cpu.x| == 31 && t.base <= cpu.sp <= Floor(t)
            && forall u: nat, a: nat {:trigger s.tasks[u], Read(mem, a)} :: u in s.tasks
                 && (a == s.tasks[u].pcb
                     || (if u == s.cur then Floor(t) else s.tasks[u].base) <= a < s.tasks[u].top)
                 ==> Read(mem, a) == Read(s.mem, a)
  {
    hide Stacked, Suspended, Apart, Read, Floor;
    if Enabled(s, Compute(cpu, mem)) {
      forall u: nat, a: nat | u in s.tasks && (a == s.tasks[u].pcb
          || (if u == s.cur then Floor(s.tasks[s.cur]) else s.tasks[u].base) <= a < s.tasks[u].top)
        ensures Read(mem, a) == Read(s.mem, a)
      {
        assert IsProtectedBy(s.tasks[u], u == s.cur, a);
        assert Protected(s, a);
      }
    }
  }

  // ----- what a suspended task gets back ------------------------------------------------

  ghost predicate IsRun(states: seq<State>, es: seq<Event>) {
    |states| == |es| + 1
    && forall i {:trigger es[i]} :: 0 <= i < |es| ==>
         Enabled(states[i], es[i]) && states[i + 1] == Step(states[i], es[i])
  }

  lemma {:induction false} RunKeepsInv(states: seq<State>, es: seq<Event>, i: nat)
    requires IsRun(states, es) && Inv(states[0]) && i <= |es|
    ensures Inv(states[i])
  {
    hide Inv, Enabled, Step;
    if i > 0 {
      RunKeepsInv(states, es, i - 1);
      StepKeepsInv(states[i - 1], es[i - 1]);
    }
  }

  /** A task that is not running, and is not switched to, keeps its frames. */
  lemma OthersKeepFrames(s: State, e: Event, t: nat)
    requires Enabled(s, e) && t in s.tasks && s.cur != t && e != SwitchTo(t)
    ensures t in Step(s, e).tasks && Step(s, e).tasks[t] == s.tasks[t] && Step(s, e).cur != t
  {
  }

  lemma {:induction false} StaysAway(states: seq<State>, es: seq<Event>, t: nat, i: nat, j: nat)
    requires IsRun(states, es) && i <= j <= |es| && t in states[i].tasks && states[i].cur != t
    requires forall k :: i <= k < j ==> es[k] != SwitchTo(t)
    ensures t in states[j].tasks && states[j].tasks[t] == states[i].tasks[t] && states[j].cur != t
  {
    hide Enabled, Step;
    if i < j {
      StaysAway(states, es, t, i, j - 1);
      OthersKeepFrames(states[j - 1], es[j - 1], t);
    }
  }

  lemma LeavingPushes(s: State, to: nat)
    requires Enabled(s, SwitchTo(to)) && to != s.cur
    ensures var s' := Step(s, SwitchTo(to));
            s'.cur == to && s.cur in s'.tasks
            && s'.tasks[s.cur] == PushFrame(s.tasks[s.cur], SwitchContext(s.cpu.x, s.cpu.sp))
  {
  }

  /** A task that is resumed has the registers and the stack pointer it was suspended with,
      whatever ran in between; also when it switches to itself. */
  lemma SwitchRestoresRegisters(states: seq<State>, es: seq<Event>, i: nat, j: nat)
    requires IsRun(states, es) && Inv(states[0]) && i <= j < |es|
    requires es[i].SwitchTo? && es[j] == SwitchTo(states[i].cur)
    requires forall k :: i <= k < j ==> es[k] != SwitchTo(states[i].cur)
    ensures states[j + 1].cur == states[i].cur
    ensures states[j + 1].cpu.x == states[i].cpu.x && states[j + 1].cpu.sp == states[i].cpu.sp
  {
    hide Inv, Step, Enabled;
    var t := states[i].cur;
    RunKeepsInv(states, es, j);
    SwitchKeepsInv(states[j], t);
    ArrivesAt(states[j], t);
    if i < j {
      LeavesTo(states[i], es[i].to, t);
      LeavingPushes(states[i], es[i].to);
      StaysAway(states, es, t, i + 1, j);
      InnermostPushed(states[i].tasks[t], SwitchContext(states[i].cpu.x, states[i].cpu.sp));
    }
  }

  lemma ArrivesAt(s: State, t: nat)
    requires Enabled(s, SwitchTo(t))
    ensures Step(s, SwitchTo(t)).cur == t
  {
  }

  lemma LeavesTo(s: State, to: nat, t: nat)
    requires Enabled(s, SwitchTo(to)) && t == s.cur
    ensures t in s.tasks
  {
  }

  lemma InnermostPushed(t: Task, c: Context)
    ensures PushFrame(t, c).frames != [] && Innermost(PushFrame(t, c)) == c
  {
  }

  /** The first switch to a new task enters mi_task_startup with fn and userdata as its
      arguments and an empty stack. */
  lemma FirstSwitchEntersStartup(states: seq<State>, es: seq<Event>, i: nat, j: nat)
    requires IsRun(states, es) && Inv(states[0]) && i < j < |es|
    requires es[i].NewTask? && es[j] == SwitchTo(es[i].t)
    requires forall k :: i < k < j ==> es[k] != SwitchTo(es[i].t)
    ensures var e := es[i]; var cpu := states[j + 1].cpu;
            IsCpu(cpu) && cpu.x[0] == e.fn && cpu.x[1] == e.userdata && cpu.x[30] == e.startup
            && cpu.sp == e.base + STACK_SIZE
  {
    hide Inv;
    RunKeepsInv(states, es, i);
    RunKeepsInv(states, es, j);
    var t := es[i].t;
    assert es[i] == NewTask(t, es[i].base, es[i].pcb, es[i].startup, es[i].fn, es[i].userdata);
    NewTaskFrames(states[i], es[i]);
    StaysAway(states, es, t, i + 1, j);
    SwitchKeepsInv(states[j], t);
  }

  lemma NewTaskFrames(s: State, e: Event)
    requires Enabled(s, e) && e.NewTask?
    ensures var s' := Step(s, e);
            s'.cur != e.t && e.t in s'.tasks
            && s'.tasks[e.t].frames == [FirstContext(s.mem, e.base, e.startup, e.fn, e.userdata)]
  {
  }

  // ----- traps: frames may come and go above the trap's own ----------------------------

  lemma StepKeepsPrefix(s: State, e: Event, t: nat, p: seq<Context>)
    requires Enabled(s, e) && t in s.tasks && p <= s.tasks[t].frames
    requires p != [] && p[|p| - 1].TrapContext?
    requires e == TrapExit && s.cur == t ==> |p| < |s.tasks[t].frames|
    ensures t in Step(s, e).tasks && p <= Step(s, e).tasks[t].frames
  {
    if e == SwitchTo(t) && s.cur == t {
      var f := s.tasks[t].frames;
      assert (f + [SwitchContext(s.cpu.x, s.cpu.sp)])[..|f|] == f;
    }
  }

  lemma {:induction false} PrefixStays(states: seq<State>, es: seq<Event>, t: nat, p: seq<Context>, i: nat, j: nat)
    requires IsRun(states, es) && i <= j <= |es| && t in states[i].tasks && p <= states[i].tasks[t].frames
    requires p != [] && p[|p| - 1].TrapContext?
    requires forall k :: i <= k < j && es[k] == TrapExit && states[k].cur == t && t in states[k].tasks ==>
             |p| < |states[k].tasks[t].frames|
    ensures t in states[j].tasks && p <= states[j].tasks[t].frames
  {
    hide Enabled, Step;
    if i < j {
      PrefixStays(states, es, t, p, i, j - 1);
      StepKeepsPrefix(states[j - 1], es[j - 1], t, p);
    }
  }

  /** The trap taken at i returns at j: traps taken on top of it by the same task return before. */
  ghost predicate Matching(states: seq<State>, es: seq<Event>, i: nat, j: nat)
    requires IsRun(states, es)
  {
    && i < j < |es| && es[i].TrapEntry? && es[j] == TrapExit && states[j].cur == states[i].cur
    && var t := states[i].cur;
       t in states[i].tasks && t in states[j].tasks
       && |states[j].tasks[t].frames| == |states[i].tasks[t].frames| + 1
       && forall k :: i < k < j && es[k] == TrapExit && states[k].cur == t && t in states[k].tasks ==>
            |states[i].tasks[t].frames| + 1 < |states[k].tasks[t].frames|
  }

  /** When the trap taken at i returns at j, the interrupted code gets back its registers, its
      stack pointer, its program counter and its processor state: whatever the handler and,
      if it switched away, other tasks did; nested traps return before it. */
  lemma TrapRestoresEverything(states: seq<State>, es: seq<Event>, i: nat, j: nat)
    requires IsRun(states, es) && Inv(states[0]) && Matching(states, es, i, j)
    ensures states[j + 1].cpu == Cpu(states[i].cpu.x, states[i].cpu.sp, es[i].pc, es[i].pstate)
  {
    var t := states[i].cur;
    var c := TrapContext(states[i].cpu.x, states[i].cpu.sp, es[i].pc, es[i].pstate);
    var p := states[i].tasks[t].frames + [c];
    TrapPushes(states[i], es[i]);
    PrefixStays(states, es, t, p, i + 1, j);
    assert states[j].tasks[t].frames == p;
    RunKeepsInv(states, es, j);
    TrapExitKeepsInv(states[j]);
    hide Inv;
  }

  lemma TrapPushes(s: State, e: Event)
    requires Enabled(s, e) && e.TrapEntry?
    ensures s.cur in Step(s, e).tasks
    ensures Step(s, e).tasks[s.cur].frames == s.tasks[s.cur].frames + [TrapContext(s.cpu.x, s.cpu.sp, e.pc, e.pstate)]
  {
  }

  // ----- the rest of the stack -------------------------------------------------------------

  /** A switch writes the frame below the stack pointer and the pcb, and nothing else. */
  lemma SwitchWrites(s: State, to: nat)
    requires Enabled(s, SwitchTo(to)) && to in s.tasks
    ensures forall a: nat :: Read(Step(s, SwitchTo(to)).mem, a) != Read(s.mem, a) ==>
              s.cpu.sp - SWITCH_FRAME <= a < s.cpu.sp || a == s.tasks[s.cur].pcb
  {
    StoreRead(s.mem, s.cpu.sp - SWITCH_FRAME, s.cpu.x);
    hide Store;
  }

  lemma StackOf(s: State, t: nat)
    requires Inv(s) && t in s.tasks
    ensures Stacked(s.mem, s.tasks[t]) && s.tasks[t].base <= Floor(s.tasks[t]) <= s.tasks[t].top
  {
    assert TaskInv(s, t);
    FloorBounds(s.mem, s.tasks[t]);
  }

  /** No step of any task changes a word above the floor of another's stack, or of its own. */
  lemma StepKeepsStack(s: State, e: Event, t: nat, a: nat)
    requires Inv(s) && Enabled(s, e) && t in s.tasks && Floor(s.tasks[t]) <= a < s.tasks[t].top
    ensures Read(Step(s, e).mem, a) == Read(s.mem, a)
  {
    hide Stacked, Suspended, Floor, Switched, Trapped, NewPcb, FirstContext, Read;
    StackOf(s, t);
    StackOf(s, s.cur);
    var u := s.tasks[s.cur];
    assert t != s.cur ==> Apart(s.tasks[t], u);
    match e
    case Compute(cpu, mem) =>
      assert IsProtectedBy(s.tasks[t], t == s.cur, a);
      assert Protected(s, a);
    case TrapEntry(pc, pstate, vector, esr, far) =>
      TrapHolds(s.cpu.(elr := pc, spsr := pstate), s.mem, vector, esr, far);
    case TrapExit =>
    case SwitchTo(to) =>
      SwitchWrites(s, to);
    case NewTask(n, base, pcb, startup, fn, userdata) =>
      assert Apart(s.tasks[t], Task(base, base + STACK_SIZE, pcb, []));
      NewPcbHolds(s.mem, pcb, base, startup, fn, userdata);
  }

  lemma StepKeepsBounds(s: State, e: Event, t: nat)
    requires Enabled(s, e) && t in s.tasks
    ensures t in Step(s, e).tasks && Step(s, e).tasks[t].base == s.tasks[t].base
            && Step(s, e).tasks[t].top == s.tasks[t].top
  {
  }

  /** A word above the floor at each step of a stretch is the same at its end. */
  lemma {:induction false} RunKeepsStack(states: seq<State>, es: seq<Event>, t: nat, a: nat, i: nat, j: nat)
    requires IsRun(states, es) && Inv(states[0]) && i <= j <= |es| && t in states[i].tasks && a < states[i].tasks[t].top
    requires forall k :: i <= k < j && t in states[k].tasks ==> Floor(states[k].tasks[t]) <= a
    ensures t in states[j].tasks && states[j].tasks[t].top == states[i].tasks[t].top
    ensures Read(states[j].mem, a) == Read(states[i].mem, a)
  {
    hide Enabled, Step, Inv, Floor;
    if i < j {
      RunKeepsStack(states, es, t, a, i, j - 1);
      RunKeepsInv(states, es, j - 1);
      StepKeepsStack(states[j - 1], es[j - 1], t, a);
      StepKeepsBounds(states[j - 1], es[j - 1], t);
    }
  }

  lemma LeavingLowersFloor(s: State, to: nat, a: nat)
    requires Inv(s) && Enabled(s, SwitchTo(to)) && s.cpu.sp <= a < s.tasks[s.cur].top
    ensures Read(Step(s, SwitchTo(to)).mem, a) == Read(s.mem, a)
    ensures var s' := Step(s, SwitchTo(to)); s.cur in s'.tasks && s'.tasks[s.cur].top == s.tasks[s.cur].top
    ensures to != s.cur ==> Floor(Step(s, SwitchTo(to)).tasks[s.cur]) <= a
  {
    StackOf(s, s.cur);
    SwitchWrites(s, to);
    StepKeepsBounds(s, SwitchTo(to), s.cur);
    hide Stacked, Switched;
  }

  /** When a task is resumed, everything on its stack from the stack pointer up reads as it did
      when it was suspended: the locals of every suspended call. */
  lemma SwitchRestoresStack(states: seq<State>, es: seq<Event>, i: nat, j: nat, a: nat)
    requires IsRun(states, es) && Inv(states[0]) && i <= j < |es|
    requires es[i].SwitchTo? && es[j] == SwitchTo(states[i].cur)
    requires forall k :: i <= k < j ==> es[k] != SwitchTo(states[i].cur)
    requires states[i].cur in states[i].tasks && states[i].cpu.sp <= a < states[i].tasks[states[i].cur].top
    ensures Read(states[j + 1].mem, a) == Read(states[i].mem, a)
  {
    hide Inv, Floor, Enabled, Step;
    var t := states[i].cur;
    RunKeepsInv(states, es, i);
    LeavingLowersFloor(states[i], es[i].to, a);
    if i < j {
      LeavingPushes(states[i], es[i].to);
      forall k | i + 1 <= k <= j ensures t in states[k].tasks && Floor(states[k].tasks[t]) <= a {
        StaysAway(states, es, t, i + 1, k);
      }
      RunKeepsStack(states, es, t, a, i + 1, j + 1);
    }
  }

  /** The floor is not above any of the frames. */
  lemma {:induction false} FloorBelow(mem: Memory, t: Task, p: seq<Context>)
    requires Stacked(mem, t) && p <= t.frames && p != []
    ensures Floor(t) <= FrameAt(p[|p| - 1])
    decreases |t.frames|
  {
    var n := |t.frames| - 1;
    if |p| <= n {
      var outer := t.(frames := t.frames[..n]);
      FloorBelow(mem, outer, p);
      assert FrameAt(t.frames[n]) <= t.frames[n].sp;
    }
  }

  lemma TrapLowersFloor(s: State, e: Event, a: nat)
    requires Inv(s) && Enabled(s, e) && e.TrapEntry? && s.cpu.sp <= a < s.tasks[s.cur].top
    ensures Read(Step(s, e).mem, a) == Read(s.mem, a)
    ensures s.cur in Step(s, e).tasks && Step(s, e).tasks[s.cur].top == s.tasks[s.cur].top
  {
    TrapHolds(s.cpu.(elr := e.pc, spsr := e.pstate), s.mem, e.vector, e.esr, e.far);
    hide Trapped;
  }

  /** As long as the trap has not returned, its frame stays on the stack. */
  lemma FloorStaysBelow(states: seq<State>, es: seq<Event>, i: nat, j: nat, k: nat)
    requires IsRun(states, es) && Inv(states[0]) && Matching(states, es, i, j) && i < k <= j
    ensures var t := states[i].cur; t in states[k].tasks && Floor(states[k].tasks[t]) <= states[i].cpu.sp
  {
    hide Inv, Floor, Enabled, Step;
    var t := states[i].cur;
    var c := TrapContext(states[i].cpu.x, states[i].cpu.sp, es[i].pc, es[i].pstate);
    var p := states[i].tasks[t].frames + [c];
    TrapPushes(states[i], es[i]);
    PrefixStays(states, es, t, p, i + 1, k);
    RunKeepsInv(states, es, k);
    StackOf(states[k], t);
    FloorBelow(states[k].mem, states[k].tasks[t], p);
  }

  /** The same for a trap: the interrupted code finds its stack as it was. */
  lemma TrapRestoresStack(states: seq<State>, es: seq<Event>, i: nat, j: nat, a: nat)
    requires IsRun(states, es) && Inv(states[0]) && Matching(states, es, i, j)
    requires states[i].cpu.sp <= a < states[i].tasks[states[i].cur].top
    ensures Read(states[j + 1].mem, a) == Read(states[i].mem, a)
  {
    hide Inv, Floor, Enabled, Step;
    var t := states[i].cur;
    RunKeepsInv(states, es, i);
    TrapLowersFloor(states[i], es[i], a);
    forall k | i + 1 <= k <= j ensures t in states[k].tasks && Floor(states[k].tasks[t]) <= a {
      FloorStaysBelow(states, es, i, j, k);
    }
    RunKeepsStack(states, es, t, a, i + 1, j + 1);
  }
}

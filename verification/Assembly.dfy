/**
 kern/arch/aarch64/switch.S, kern/arch/aarch64/interrupt.S and md_init_new_task_pcb of
 kern/arch/aarch64/pcb.c, instruction by instruction at the offsets they use.  Every sequence of
 moves is proved to be the block of words that the run machine of ContextSwitch steps by.
 */
module Assembly {
  import opened ContextSwitch

  class Core {
    var x: seq<nat>
    var sp: nat
    var elr: nat
    var spsr: nat
    var mem: Memory

    function View(): Cpu
      reads this
    {
      Cpu(x, sp, elr, spsr)
    }

    // ----- aarch64_switch ----------------------------------------------------------------

    /** The registers from k up are in memory at their offsets from sp; nothing else has
        changed since `mem0`. */
    ghost predicate StoredFrom(mem0: Memory, k: nat)
      reads this`x, this`sp, this`mem
    {
      k <= |x| == REGISTERS && mem == Store(mem0, sp + 8 * k, x[k..])
    }

    /** The registers from k up are those in memory at their offsets from sp. */
    ghost predicate LoadedFrom(k: nat)
      reads this`x, this`sp, this`mem
    {
      |x| == REGISTERS && forall i :: k <= i < REGISTERS ==> x[i] == Read(mem, sp + 8 * i)
    }

    /** str xr, [sp, #offset] */
    method Str(r: nat, offset: nat, ghost mem0: Memory)
      requires r < REGISTERS && offset == 8 * r && StoredFrom(mem0, r + 1)
      modifies this`mem
      ensures StoredFrom(mem0, r)
    {
      StoreBelow(mem0, sp + 8 * r, x[r], x[r + 1..]);
      assert [x[r]] + x[r + 1..] == x[r..];
      mem := mem[sp + offset := x[r]];
    }

    /** ldr xr, [sp, #offset] */
    method Ldr(r: nat, offset: nat)
      requires r < REGISTERS && LoadedFrom(r + 1)
      modifies this`x
      ensures x == old(x)[r := Read(mem, sp + offset)]
      ensures offset == 8 * r ==> LoadedFrom(r)
    {
      x := x[r := Read(mem, sp + offset)];
    }

    method AarchSwitch()
      requires |x| == REGISTERS && sp >= SWITCH_FRAME
      modifies this`x, this`sp, this`mem
      ensures (View(), mem) == Switched(old(View()), old(mem))
      ensures !(old(sp) - 256 <= old(x[0]) < old(sp)) ==>
                && (forall i :: 0 <= i < 31 ==> Read(mem, old(sp) - 256 + 8 * i) == old(x[i]))
                && Read(mem, old(x[0])) == old(sp) - 256
                && (forall i :: 0 <= i < 31 ==> x[i] == Read(mem, Read(mem, old(x[1])) + 8 * i))
                && sp == Read(mem, old(x[1])) + 256
    {
      SwitchFrame();
      StoreAll();
      x := x[2 := sp];                 // mov x2, sp
      mem := mem[x[0] := x[2]];        // str x2, [x0, #0]
      x := x[2 := Read(mem, x[1])];    // ldr x2, [x1, #0]
      sp := x[2];                      // mov sp, x2
      LoadAll();
    }

    lemma SwitchFrame()
      requires |x| == REGISTERS && sp >= SWITCH_FRAME
      ensures !(sp - 256 <= x[0] < sp) ==>
                var (c, m) := Switched(View(), mem);
                && (forall i :: 0 <= i < 31 ==> Read(m, sp - 256 + 8 * i) == x[i]) && Read(m, x[0]) == sp - 256
                && (forall i :: 0 <= i < 31 ==> c.x[i] == Read(m, Read(m, x[1]) + 8 * i))
                && c.sp == Read(m, x[1]) + 256
    {
      if !(sp - 256 <= x[0] < sp) {
        SwitchIs(View(), mem);
      }
      hide Switched, Read;
    }

    /** From `sub sp, sp, #256` to the last str. */
    method StoreAll()
      requires |x| == REGISTERS && sp >= SWITCH_FRAME
      modifies this`sp, this`mem
      ensures sp == old(sp) - SWITCH_FRAME && mem == Store(old(mem), sp, x)
    {
      hide StoredFrom, Store, Read;
      sp := sp - 256;
      ghost var mem0 := mem;
      NothingStored();
      Str(30, 0xF0, mem0);
      Str(29, 0xE8, mem0);
      Str(28, 0xE0, mem0);
      Str(27, 0xD8, mem0);
      Str(26, 0xD0, mem0);
      Str(25, 0xC8, mem0);
      Str(24, 0xC0, mem0);
      Str(23, 0xB8, mem0);
      Str(22, 0xB0, mem0);
      Str(21, 0xA8, mem0);
      Str(20, 0xA0, mem0);
      Str(19, 0x98, mem0);
      Str(18, 0x90, mem0);
      Str(17, 0x88, mem0);
      Str(16, 0x80, mem0);
      StoreLow(mem0);
      AllStored(mem0);
    }

    method StoreLow(ghost mem0: Memory)
      requires StoredFrom(mem0, 16)
      modifies this`mem
      ensures StoredFrom(mem0, 0)
    {
      hide StoredFrom, Store, Read;
      Str(15, 0x78, mem0);
      Str(14, 0x70, mem0);
      Str(13, 0x68, mem0);
      Str(12, 0x60, mem0);
      Str(11, 0x58, mem0);
      Str(10, 0x50, mem0);
      Str(9, 0x48, mem0);
      Str(8, 0x40, mem0);
      Str(7, 0x38, mem0);
      Str(6, 0x30, mem0);
      Str(5, 0x28, mem0);
      Str(4, 0x20, mem0);
      Str(3, 0x18, mem0);
      Str(2, 0x10, mem0);
      Str(1, 0x08, mem0);
      Str(0, 0x00, mem0);
    }

    lemma NothingStored()
      requires |x| == REGISTERS
      ensures StoredFrom(mem, 31)
    {
    }

    lemma AllStored(mem0: Memory)
      requires StoredFrom(mem0, 0)
      ensures mem == Store(mem0, sp, x)
    {
      assert x[0..] == x;
    }

    /** From the first ldr to `add sp, sp, #256`. */
    method LoadAll()
      requires |x| == REGISTERS
      modifies this`x, this`sp
      ensures x == Load(mem, old(sp), REGISTERS) && sp == old(sp) + SWITCH_FRAME
    {
      hide LoadedFrom, Read, Load;
      NothingLoaded();
      Ldr(30, 0xF0);
      Ldr(29, 0xE8);
      Ldr(28, 0xE0);
      Ldr(27, 0xD8);
      Ldr(26, 0xD0);
      Ldr(25, 0xC8);
      Ldr(24, 0xC0);
      Ldr(23, 0xB8);
      Ldr(22, 0xB0);
      Ldr(21, 0xA8);
      Ldr(20, 0xA0);
      Ldr(19, 0x98);
      Ldr(18, 0x90);
      Ldr(17, 0x88);
      Ldr(16, 0x80);
      Ldr(15, 0x78);
      Ldr(14, 0x70);
      Ldr(13, 0x68);
      Ldr(12, 0x60);
      Ldr(11, 0x58);
      Ldr(10, 0x50);
      Ldr(9, 0x48);
      Ldr(8, 0x40);
      Ldr(7, 0x38);
      Ldr(6, 0x30);
      Ldr(5, 0x28);
      Ldr(4, 0x20);
      Ldr(3, 0x18);
      Ldr(2, 0x10);
      Ldr(1, 0x08);
      Ldr(0, 0x00);
      AllLoaded();
      sp := sp + 256;
    }

    lemma NothingLoaded()
      requires |x| == REGISTERS
      ensures LoadedFrom(31)
    {
    }

    lemma AllLoaded()
      requires LoadedFrom(0)
      ensures x == Load(mem, sp, REGISTERS)
    {
    }

    // ----- the trap entry and exit ---------------------------------------------------------

    /** The first n words of the trap frame are in memory; nothing else has changed. */
    ghost predicate Framed(mem0: Memory, words: seq<nat>, n: nat)
      reads this`sp, this`mem
    {
      n <= |words| && mem == Store(mem0, sp, words[..n])
    }

    /** stp xa, xb, [sp, #offset] */
    method Stp(a: nat, b: nat, offset: nat, ghost mem0: Memory, ghost words: seq<nat>)
      requires a < |x| && b < |x| && offset % 8 == 0 && Framed(mem0, words, offset / 8)
      requires offset / 8 + 2 <= |words| && words[offset / 8] == x[a] && words[offset / 8 + 1] == x[b]
      modifies this`mem
      ensures Framed(mem0, words, offset / 8 + 2)
    {
      ghost var n := offset / 8;
      assert words[..n + 1] == words[..n] + [words[n]] && words[..n + 2] == words[..n + 1] + [words[n + 1]];
      StoreAbove(mem0, sp, words[..n], words[n]);
      StoreAbove(mem0, sp, words[..n + 1], words[n + 1]);
      mem := mem[sp + offset := x[a]][sp + offset + 8 := x[b]];
    }

    /** define_entry and finish_trap, up to the call of aarch64_trapentry: x0 then is the address of
        the trap frame. */
    method FinishTrap(vector: nat, esr: nat, far: nat)
      requires |x| == REGISTERS && sp >= TRAP_FRAME
      modifies this`x, this`sp, this`mem
      ensures (View(), mem) == Trapped(old(View()), old(mem), vector, esr, far)
      ensures |x| == 31 && x[0] == sp == old(sp) - 288
      ensures Read(mem, sp) == vector && forall i :: 0 <= i < 31 ==> Read(mem, sp + 8 + 8 * i) == old(x[i])
      ensures Read(mem, sp + 256) == esr && Read(mem, sp + 264) == old(elr)
      ensures Read(mem, sp + 272) == old(spsr) && Read(mem, sp + 280) == far
    {
      hide Store, TrapWords, Read;
      ghost var c0, mem0 := View(), mem;
      SaveContext(vector, esr, far);
      x := x[0 := sp];                 // mov x0, sp
      assert x == c0.x[0 := sp][1 := elr][2 := spsr][3 := far];
      HandlerSeesFrame(c0, mem0, vector, esr, far);
    }

    lemma HandlerSeesFrame(c0: Cpu, mem0: Memory, vector: nat, esr: nat, far: nat)
      requires IsCpu(c0) && c0.sp >= 288 && (View(), mem) == Trapped(c0, mem0, vector, esr, far)
      ensures |x| == 31 && x[0] == sp == c0.sp - 288
      ensures Read(mem, sp) == vector && forall i :: 0 <= i < 31 ==> Read(mem, sp + 8 + 8 * i) == c0.x[i]
      ensures Read(mem, sp + 256) == esr && Read(mem, sp + 264) == c0.elr
      ensures Read(mem, sp + 272) == c0.spsr && Read(mem, sp + 280) == far
    {
      TrapFrameIs(c0, mem0, vector, esr, far);
      hide Trapped, Read;
    }

    /** The stores of the frame. */
    method SaveContext(vector: nat, esr: nat, far: nat)
      requires |x| == REGISTERS && sp >= TRAP_FRAME
      modifies this`x, this`sp, this`mem
      ensures sp == old(sp) - TRAP_FRAME && mem == Store(old(mem), sp, TrapWords(old(View()), vector, esr, far))
      ensures x == old(x)[0 := esr][1 := elr][2 := spsr][3 := far]
    {
      hide Framed, Store, TrapWords, Read;
      ghost var words, mem0 := TrapWords(View(), vector, esr, far), mem;
      TrapLayout(View(), vector, esr, far);
      OtherWords(words, View(), vector, esr, far);
      sp := sp - 288;
      mem := mem[sp + 8 := x[0]];      // str x0, [sp, #8]
      x := x[0 := vector];             // mov x0, #id
      mem := mem[sp := x[0]];          // str x0, [sp, #0]
      FirstTwo(mem0, words);
      StoreRegisters(mem0, words);
      x := x[0 := esr];                // mrs x0, esr_el1
      x := x[1 := elr];                // mrs x1, elr_el1
      x := x[2 := spsr];               // mrs x2, spsr_el1
      x := x[3 := far];                // mrs x3, far_el1
      Stp(0, 1, 16 * 16, mem0, words);
      Stp(2, 3, 16 * 17, mem0, words);
      WholeFrame(mem0, words);
    }

    lemma FirstTwo(mem0: Memory, words: seq<nat>)
      requires |words| == 36 && mem == mem0[sp + 8 := words[1]][sp := words[0]]
      ensures Framed(mem0, words, 2)
    {
      assert words[..2] == [words[0], words[1]];
      assert [words[0], words[1]][1..] == [words[1]] && [words[1]][1..] == [];
      assert Store(mem0[sp := words[0]], sp + 8, [words[1]]) == mem0[sp := words[0]][sp + 8 := words[1]];
      assert mem == mem0[sp := words[0]][sp + 8 := words[1]];
    }

    /** The fifteen stp of finish_trap. */
    method StoreRegisters(ghost mem0: Memory, ghost words: seq<nat>)
      requires |x| == REGISTERS && |words| == 36 && Framed(mem0, words, 2)
      requires forall i :: 1 <= i < REGISTERS ==> words[i + 1] == x[i]
      modifies this`mem
      ensures Framed(mem0, words, 32)
    {
      hide Framed;
      Stp(1, 2, 16 * 1, mem0, words);
      Stp(3, 4, 16 * 2, mem0, words);
      Stp(5, 6, 16 * 3, mem0, words);
      Stp(7, 8, 16 * 4, mem0, words);
      Stp(9, 10, 16 * 5, mem0, words);
      Stp(11, 12, 16 * 6, mem0, words);
      Stp(13, 14, 16 * 7, mem0, words);
      Stp(15, 16, 16 * 8, mem0, words);
      Stp(17, 18, 16 * 9, mem0, words);
      Stp(19, 20, 16 * 10, mem0, words);
      Stp(21, 22, 16 * 11, mem0, words);
      Stp(23, 24, 16 * 12, mem0, words);
      Stp(25, 26, 16 * 13, mem0, words);
      Stp(27, 28, 16 * 14, mem0, words);
      Stp(29, 30, 16 * 15, mem0, words);
    }

    lemma OtherWords(words: seq<nat>, c: Cpu, vector: nat, esr: nat, far: nat)
      requires IsCpu(c) && words == TrapWords(c, vector, esr, far)
      ensures |words| == 36 && words[0] == vector && words[32] == esr && words[33] == c.elr && words[34] == c.spsr
              && words[35] == far
    {
    }

    lemma WholeFrame(mem0: Memory, words: seq<nat>)
      requires Framed(mem0, words, |words|)
      ensures mem == Store(mem0, sp, words)
    {
      assert words[..|words|] == words;
    }

    /** The registers from x1 below xn are those of the trap frame. */
    ghost predicate LoadedTo(n: nat)
      reads this`x, this`sp, this`mem
    {
      |x| == REGISTERS && forall i :: 1 <= i < n && i < REGISTERS ==> x[i] == Read(mem, sp + 8 + 8 * i)
    }

    /** ldp xa, xb, [sp, #offset] */
    method Ldp(a: nat, b: nat, offset: nat)
      requires a < |x| && b < |x|
      modifies this`x
      ensures x == old(x)[a := Read(mem, sp + offset)][b := Read(mem, sp + offset + 8)]
      ensures b == a + 1 && offset == 8 + 8 * a && old(LoadedTo(a)) ==> LoadedTo(a + 2)
    {
      x := x[a := Read(mem, sp + offset)][b := Read(mem, sp + offset + 8)];
    }

    /** The rest of finish_trap, ending in eret. */
    method ReturnFromTrap()
      requires |x| == REGISTERS
      modifies this`x, this`sp, this`elr, this`spsr
      ensures View() == Returned(old(View()), mem)
      ensures sp == old(sp) + 288 && forall i :: 0 <= i < 31 ==> x[i] == Read(mem, old(sp) + 8 + 8 * i)
      ensures elr == Read(mem, old(sp) + 264) && spsr == Read(mem, old(sp) + 272)
    {
      Ldp(0, 1, 16 * 16);
      Ldp(2, 3, 16 * 17);
      elr := x[1];                     // msr elr_el1, x1
      spsr := x[2];                    // msr spsr_el1, x2
      LoadRegisters();
      x := x[0 := Read(mem, sp + 8)];  // ldr x0, [sp, #8]
      assert x == Load(mem, sp + 8, REGISTERS);
      sp := sp + 288;
    }

    /** The fifteen ldp of finish_trap. */
    method LoadRegisters()
      requires |x| == REGISTERS
      modifies this`x
      ensures LoadedTo(REGISTERS)
    {
      hide LoadedTo, Read;
      NoneLoaded();
      Ldp(1, 2, 16 * 1);
      Ldp(3, 4, 16 * 2);
      Ldp(5, 6, 16 * 3);
      Ldp(7, 8, 16 * 4);
      Ldp(9, 10, 16 * 5);
      Ldp(11, 12, 16 * 6);
      Ldp(13, 14, 16 * 7);
      Ldp(15, 16, 16 * 8);
      Ldp(17, 18, 16 * 9);
      Ldp(19, 20, 16 * 10);
      Ldp(21, 22, 16 * 11);
      Ldp(23, 24, 16 * 12);
      Ldp(25, 26, 16 * 13);
      Ldp(27, 28, 16 * 14);
      Ldp(29, 30, 16 * 15);
    }

    lemma NoneLoaded()
      requires |x| == REGISTERS
      ensures LoadedTo(1)
    {
    }

    // ----- pcb.c ---------------------------------------------------------------------------

    method MdInitNewTaskPcb(pcb: nat, stack: nat, startup: nat, fn: nat, userdata: nat)
      modifies this`mem
      ensures mem == NewPcb(old(mem), pcb, stack, startup, fn, userdata)
      ensures !(stack <= pcb < stack + 4096) ==>
                && Read(mem, pcb) == stack + 3840 && Read(mem, stack + 3840) == fn
                && Read(mem, stack + 3840 + 8) == userdata && Read(mem, stack + 3840 + 240) == startup
    {
      ghost var mem0 := mem;
      mem := mem[pcb := stack + STACK_SIZE];
      mem := mem[pcb := Read(mem, pcb) - 256];
      var stackdata := Read(mem, pcb);
      assert mem == mem0[pcb := stackdata] && stackdata == stack + 3840;
      mem := mem[stackdata + 0xF0 := startup];
      mem := mem[stackdata + 0x00 := fn];
      mem := mem[stackdata + 0x08 := userdata];
      ForgedFrame(mem0, pcb, stack, startup, fn, userdata);
    }

    lemma ForgedFrame(mem0: Memory, pcb: nat, stack: nat, startup: nat, fn: nat, userdata: nat)
      requires mem == NewPcb(mem0, pcb, stack, startup, fn, userdata)
      ensures !(stack <= pcb < stack + 4096) ==>
                && Read(mem, pcb) == stack + 3840 && Read(mem, stack + 3840) == fn
                && Read(mem, stack + 3840 + 8) == userdata && Read(mem, stack + 3840 + 240) == startup
    {
      if !(stack <= pcb < stack + 4096) {
        NewPcbIs(mem0, pcb, stack, startup, fn, userdata);
      }
      hide NewPcb, Read;
    }
  }

  // ----- runs ----------------------------------------------------------------------------------

  /** The instructions follow the run machine: what its runs keep, registers and memory keep. */
  method Execute(core: Core, es: seq<Event>, ghost states: seq<State>)
    requires IsRun(states, es) && core.View() == states[0].cpu && core.mem == states[0].mem
    modifies core
    ensures core.View() == states[|es|].cpu && core.mem == states[|es|].mem
  {
    hide Switched, Trapped, Returned, NewPcb;
    for k := 0 to |es|
      invariant core.View() == states[k].cpu && core.mem == states[k].mem
    {
      Ready(states[k], es[k]);
      match es[k] {
        case Compute(cpu, mem) =>
          core.x, core.sp, core.elr, core.spsr, core.mem := cpu.x, cpu.sp, cpu.elr, cpu.spsr, mem;
        case TrapEntry(pc, pstate, vector, esr, far) =>
          core.elr, core.spsr := pc, pstate;
          core.FinishTrap(vector, esr, far);
        case TrapExit =>
          core.ReturnFromTrap();
        case SwitchTo(to) =>
          core.AarchSwitch();
        case NewTask(t, base, pcb, startup, fn, userdata) =>
          core.MdInitNewTaskPcb(pcb, base, startup, fn, userdata);
      }
    }
  }

  lemma Ready(s: State, e: Event)
    requires Enabled(s, e)
    ensures |s.cpu.x| == REGISTERS
    ensures e.TrapEntry? ==> s.cpu.sp >= TRAP_FRAME
    ensures e.SwitchTo? ==> s.cpu.sp >= SWITCH_FRAME
  {
  }

  // ----- blocks of words, one at a time ------------------------------------------------------

  /** One more word below a block. */
  lemma StoreBelow(mem: Memory, a: nat, v: nat, vals: seq<nat>)
    ensures Store(mem, a + 8, vals)[a := v] == Store(mem, a, [v] + vals)
  {
    StoreCommutes(mem, a, v, a + 8, vals);
    assert ([v] + vals)[1..] == vals;
  }

  lemma {:induction false} StoreCommutes(mem: Memory, b: nat, v: nat, a: nat, vals: seq<nat>)
    requires b < a
    ensures Store(mem, a, vals)[b := v] == Store(mem[b := v], a, vals)
    decreases |vals|
  {
    if vals != [] {
      StoreCommutes(mem[a := vals[0]], b, v, a + 8, vals[1..]);
      assert mem[a := vals[0]][b := v] == mem[b := v][a := vals[0]];
    }
  }

  /** One more word above a block. */
  lemma {:induction false} StoreAbove(mem: Memory, a: nat, vals: seq<nat>, v: nat)
    ensures Store(mem, a, vals + [v]) == Store(mem, a, vals)[a + 8 * |vals| := v]
    decreases |vals|
  {
    if vals == [] {
      assert [] + [v] == [v] && [v][1..] == [];
    } else {
      StoreAbove(mem[a := vals[0]], a + 8, vals[1..], v);
      assert (vals + [v])[1..] == vals[1..] + [v];
    }
  }
}

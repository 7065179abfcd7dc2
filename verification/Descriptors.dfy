/**
 Translation table descriptors of kern/arch/aarch64/mmu.c, and the four-level walk the
 hardware performs over them: VMSAv8-64 translation table format descriptors, Arm
 Architecture Reference Manual (DDI 0487), section D5.3 (D8.3 in newer issues).

 A word is a natural number below 2^64.  Masks are written as division and remainder by
 powers of two: `w & 3` is `w % 4`, `w & ~3` is `w - w % 4`, and so on.
 */
module Descriptors {

  const PAGE_SIZE := 4096
  const TABLE_ENTRIES := 512
  const ADDRESS_LIMIT := 0x1_0000_0000_0000   // 2^48

  const UXN := 0x40_0000_0000_0000
  const PXN := 0x20_0000_0000_0000

  // The prot argument of mmu_map: an int holding these bits.
  predicate ProtRead(flags: nat) { flags % 2 == 1 }
  predicate ProtWrite(flags: nat) { flags / 2 % 2 == 1 }
  predicate ProtExec(flags: nat) { flags / 4 % 2 == 1 }
  predicate ProtUser(flags: nat) { flags / 8 % 2 == 1 }
  predicate MemMmio(flags: nat) { flags / 16 % 2 == 1 }

  predicate IsAligned(pa: nat) { pa % PAGE_SIZE == 0 }

  predicate IsPageAddress(pa: nat) {
    IsAligned(pa) && pa < ADDRESS_LIMIT
  }

  /** The attribute fields that mmu_map assembles: AP[2:1], UXN, PXN and AttrIndx. */
  datatype Attributes = Attributes(ap: nat, uxn: bool, pxn: bool, mair: nat)

  predicate ValidAttributes(a: Attributes) {
    a.ap < 4 && a.mair < 8
  }

  /** A level 3 page descriptor: output address, attributes, access flag, inner shareable. */
  function Encode(pa: nat, a: Attributes): nat {
    pa + a.ap * 0x40 + (if a.uxn then UXN else 0) + (if a.pxn then PXN else 0) + a.mair * 4
    + 0x400 + 0x300 + 3
  }

  // ----- what the hardware makes of a descriptor ---------------------------------

  predicate IsValidBit(w: nat) { w % 2 == 1 }
  predicate IsTableOrPage(w: nat) { w % 4 == 3 }
  predicate AccessFlag(w: nat) { w % PAGE_SIZE / 0x400 % 2 == 1 }

  /** `*mapping & ~3`, with which walk_or_create follows a table descriptor. */
  function TableAddress(w: nat): nat { w - w % 4 }

  /** Bits 47:12. */
  function OutputAddress(w: nat): nat { w / PAGE_SIZE % 0x10_0000_0000 * PAGE_SIZE }

  function AttributesOf(w: nat): Attributes {
    var low := w % PAGE_SIZE;
    Attributes(low / 0x40 % 4, w / UXN % 2 == 1, w / PXN % 2 == 1, low / 4 % 8)
  }

  /** Who may do what, at EL1 and at EL0. */
  datatype Access = Access(
    kernelRead: bool, kernelWrite: bool, kernelExec: bool,
    userRead: bool, userWrite: bool, userExec: bool,
    device: bool)

  /** Stage 1 EL1&0 access permissions: AP selects data access, UXN and PXN forbid
      execution, and a page writable at EL0 is never executable at EL1. */
  function AccessOf(a: Attributes): Access {
    Access(true, a.ap < 2, !a.pxn && a.ap != 1,
           a.ap % 2 == 1, a.ap == 1, !a.uxn,
           a.mair == 1)
  }

  /** What the flags of mmu.h ask for: the kernel gets read (implied by write), write and
      execute as asked, the user gets the same when PROT_USER is given. */
  function Requested(flags: nat): Access {
    var read := ProtRead(flags) || ProtWrite(flags);
    var write := ProtWrite(flags);
    var exec := ProtExec(flags);
    var user := ProtUser(flags);
    Access(read, write, exec,
           user && read, user && write, user && exec,
           MemMmio(flags))
  }

  /** The attributes mmu_map computes from its flags. */
  function AttributesFor(flags: nat): Attributes {
    var kernelOnly := !ProtUser(flags);
    Attributes(
      if ProtWrite(flags) then (if kernelOnly then 0 else 1)
      else if ProtRead(flags) then (if kernelOnly then 2 else 3)
      else 0,
      !ProtExec(flags) || kernelOnly,
      !ProtExec(flags),
      if MemMmio(flags) then 1 else 0)
  }

  /** Flags mean what they say exactly when PROT_READ or PROT_WRITE is among them, and not
      PROT_WRITE, PROT_EXEC and PROT_USER together: without either of the first two, the AP field
      stays 0, which the architecture reads as kernel read-write; with all of the last three,
      the page is writable at EL0, and so not executable at EL1. */
  lemma AccessMatchesFlags(flags: nat)
    ensures AccessOf(AttributesFor(flags)) == Requested(flags)
            <==> (ProtRead(flags) || ProtWrite(flags)) && !(ProtWrite(flags) && ProtExec(flags) && ProtUser(flags))
  {
    if !ProtRead(flags) && !ProtWrite(flags) {
      assert AccessOf(AttributesFor(flags)).kernelRead && !Requested(flags).kernelRead;
    }
  }

  /** Without any flag the kernel may write; with write, execute and user it may not execute. */
  lemma AccessExamples()
    ensures AccessOf(AttributesFor(0)).kernelWrite && !Requested(0).kernelWrite
    ensures !AccessOf(AttributesFor(14)).kernelExec && Requested(14).kernelExec
  {
  }

  /** The descriptor that mmu_map writes decodes to the page and the attributes it encodes. */
  lemma EncodeDecode(pa: nat, a: Attributes)
    requires IsPageAddress(pa) && ValidAttributes(a)
    ensures var w := Encode(pa, a);
            IsTableOrPage(w) && AccessFlag(w) && OutputAddress(w) == pa && AttributesOf(w) == a
            && LeafAddress(w) == pa && w < 0x80_0000_0000_0000 && w / 0x100 % 4 == 3
  {
    var low := a.ap * 0x40 + a.mair * 4 + 0x703;
    var high := (if a.uxn then 2 else 0) + (if a.pxn then 1 else 0);
    HighFields(high, pa / PAGE_SIZE, low);
    LowFields(a.ap, a.mair);
    Shareable(a.ap, a.mair);
    LowField(high * 0x200_0000_0000 + pa / PAGE_SIZE, low, 0x100, 4);
  }

  lemma HighFields(high: nat, page: nat, low: nat)
    requires high < 4 && page < 0x10_0000_0000 && low < PAGE_SIZE
    ensures var w := high * PXN + page * PAGE_SIZE + low;
            w % PAGE_SIZE == low && w % 4 == low % 4
            && w / PAGE_SIZE % 0x10_0000_0000 == page
            && w / PXN == high && w / UXN == high / 2
  {
    PageAndOffset(high * 0x200_0000_0000 + page, low);
    HighAndRest(high, page * PAGE_SIZE + low);
  }

  lemma PageAndOffset(page: nat, low: nat)
    requires low < PAGE_SIZE
    ensures var w := page * PAGE_SIZE + low;
            w % PAGE_SIZE == low && w % 4 == low % 4 && w / PAGE_SIZE == page
  {
    SkipMultiples(page * 1024, low, 4);
  }

  lemma HighAndRest(high: nat, rest: nat)
    requires high < 4 && rest < PXN
    ensures (high * PXN + rest) / PXN == high && (high * PXN + rest) / UXN == high / 2
  {
  }

  lemma LowFields(ap: nat, mair: nat)
    requires ap < 4 && mair < 8
    ensures var low := ap * 0x40 + mair * 4 + 0x703;
            low < PAGE_SIZE && low % 4 == 3 && low / 4 % 8 == mair && low / 0x40 % 4 == ap
            && low / 0x400 % 2 == 1
  {
    var low := ap * 0x40 + mair * 4 + 0x703;
    assert low / 4 == ap * 16 + mair + 0x1C0;
    assert low / 0x40 == ap + 28;
  }

  /** A field in the low twelve bits of a word. */
  lemma LowField(page: nat, low: nat, unit: nat, count: nat)
    requires (unit, count) in {(4, 8), (0x20, 2), (0x40, 2), (0x80, 2), (0x100, 4), (0x400, 4)}
    ensures (page * PAGE_SIZE + low) / unit % count == low / unit % count
  {
    var above := if unit == 4 then 0x80 else if unit == 0x20 then 0x40 else if unit == 0x40 then 0x20
                 else if unit == 0x80 then 0x10 else if unit == 0x100 then 4 else 1;
    Quotient(page * above, low, unit, count);
  }

  lemma Quotient(above: nat, low: nat, unit: nat, count: nat)
    requires (unit, count) in {(4, 8), (0x20, 2), (0x40, 2), (0x80, 2), (0x100, 4), (0x400, 4)}
    ensures (above * count * unit + low) / unit % count == low / unit % count
  {
    assert (above * count * unit + low) / unit == above * count + low / unit;
    SkipMultiples(above, low / unit, count);
  }

  lemma SkipMultiples(n: nat, x: nat, count: nat)
    requires count in {2, 4, 8}
    ensures (n * count + x) % count == x % count
  {
    if count == 2 {
      SkipTwos(n, x);
    } else if count == 4 {
      SkipFours(n, x);
    } else {
      SkipEights(n, x);
    }
  }

  lemma SkipTwos(n: nat, x: nat)
    ensures (n * 2 + x) % 2 == x % 2
  {
  }

  lemma SkipFours(n: nat, x: nat)
    ensures (n * 4 + x) % 4 == x % 4
  {
  }

  lemma SkipEights(n: nat, x: nat)
    ensures (n * 8 + x) % 8 == x % 8
  {
  }

  lemma MultipleOfEight(pa: nat)
    requires IsAligned(pa)
    ensures pa % 8 == 0 && pa % 4 == 0
  {
    assert pa == pa / PAGE_SIZE * PAGE_SIZE;
    SkipEights(pa / PAGE_SIZE * 512, 0);
    SkipFours(pa / PAGE_SIZE * 1024, 0);
  }

  /** The word mmu_map writes, bit by bit, for any flags: the bits that are clear whatever the
      flags are among them. */
  lemma DescriptorBitByBit(pa: nat, flags: nat)
    requires IsPageAddress(pa)
    ensures var w := Encode(pa, AttributesFor(flags));
            var read, write, exec := flags % 2 == 1, flags / 2 % 2 == 1, flags / 4 % 2 == 1;
            var user, mmio := flags / 8 % 2 == 1, flags / 16 % 2 == 1;
            && w % 4 == 3                                               // valid, page
            && w / 4 % 8 == (if mmio then 1 else 0)                     // AttrIndx
            && w / 0x20 % 2 == 0                                        // NS
            && (w / 0x40 % 2 == 1 <==> user && (read || write))         // AP[1]: EL0 access
            && (w / 0x80 % 2 == 1 <==> read && !write)                  // AP[2]: read-only
            && w / 0x100 % 4 == 3                                       // SH: inner shareable
            && w / 0x400 % 4 == 1                                       // AF set, nG clear
            && w / 0x1000 % 0x10_0000_0000 * 0x1000 == pa               // bits 47:12
            && w / 0x1_0000_0000_0000 % 32 == 0
            && (w / 0x20_0000_0000_0000 % 2 == 1 <==> !exec)            // PXN
            && (w / 0x40_0000_0000_0000 % 2 == 1 <==> !exec || !user)   // UXN
            && w < 0x80_0000_0000_0000
  {
    var a := AttributesFor(flags);
    var low := a.ap * 0x40 + a.mair * 4 + 0x703;
    var high := (if a.uxn then 2 else 0) + (if a.pxn then 1 else 0);
    var page := high * 0x200_0000_0000 + pa / PAGE_SIZE;
    assert pa == pa / PAGE_SIZE * PAGE_SIZE && pa / PAGE_SIZE < 0x10_0000_0000;
    HighFields(high, pa / PAGE_SIZE, low);
    Shareable(a.ap, a.mair);
    LowFields(a.ap, a.mair);
    assert Encode(pa, a) == page * PAGE_SIZE + low;
    LowField(page, low, 4, 8);
    LowField(page, low, 0x20, 2);
    LowField(page, low, 0x40, 2);
    LowField(page, low, 0x80, 2);
    LowField(page, low, 0x100, 4);
    LowField(page, low, 0x400, 4);
    Unused(high, pa, low);
  }

  lemma Unused(high: nat, pa: nat, low: nat)
    requires high < 4 && IsPageAddress(pa) && low < PAGE_SIZE
    ensures (high * PXN + pa + low) / 0x1_0000_0000_0000 % 32 == 0
  {
    assert pa + low < 0x1_0000_0000_0000;
    assert (high * PXN + pa + low) / 0x1_0000_0000_0000 == high * 32;
  }

  lemma Shareable(ap: nat, mair: nat)
    requires ap < 4 && mair < 8
    ensures var low := ap * 0x40 + mair * 4 + 0x703;
            low / 0x100 == 7 && low / 0x20 % 2 == 0 && low / 0x40 % 2 == ap % 2 && low / 0x80 % 2 == ap / 2
            && low / 0x400 == 1
  {
    var low := ap * 0x40 + mair * 4 + 0x703;
    assert low / 0x20 == ap * 2 + 56 && low / 0x40 == ap + 28 && low / 0x80 == ap / 2 + 14;
  }

  /** `p3 & ~(0xfff | UXN | PXN)`, with which walk_pages extracts a leaf's address. */
  function LeafAddress(w: nat): nat {
    w - w % PAGE_SIZE - w / UXN % 2 * UXN - w / PXN % 2 * PXN
  }

  // ----- the walk ------------------------------------------------------------------

  datatype Translation =
    | Fault
    | Page(address: nat, attributes: Attributes)
    | Block(level: nat, descriptor: nat)

  /** `(addr >> shift) & 0x1FF`. */
  function IndexAt(va: nat, shift: nat): (i: nat)
    requires shift in {39, 30, 21, 12}
    ensures i < TABLE_ENTRIES
  {
    (if shift == 39 then va / 0x80_0000_0000
     else if shift == 30 then va / 0x4000_0000
     else if shift == 21 then va / 0x20_0000
     else va / 0x1000) % TABLE_ENTRIES
  }

  function ShiftOf(level: nat): (shift: nat)
    requires level < 4
    ensures shift in {39, 30, 21, 12}
  {
    39 - 9 * level
  }

  /** Bits 47:12 of a virtual address. */
  function PageNumber(va: nat): nat { va / PAGE_SIZE % 0x10_0000_0000 }

  /** A position in the tree of tables: the indices followed from the root. */
  datatype Key =
    | Root
    | Table1(i: nat)
    | Table2(i: nat, j: nat)
    | Table3(i: nat, j: nat, k: nat)
    | PageKey(i: nat, j: nat, k: nat, l: nat)

  function Depth(key: Key): nat {
    match key
    case Root => 0
    case Table1(_) => 1
    case Table2(_, _) => 2
    case Table3(_, _, _) => 3
    case PageKey(_, _, _, _) => 4
  }

  function Child(key: Key, index: nat): Key
    requires Depth(key) < 4
  {
    match key
    case Root => Table1(index)
    case Table1(i) => Table2(i, index)
    case Table2(i, j) => Table3(i, j, index)
    case Table3(i, j, k) => PageKey(i, j, k, index)
  }

  /** The indices of `va` down to a level; at level 4, all four of them. */
  function KeyOf(va: nat, level: nat): (key: Key)
    requires level <= 4
    ensures Depth(key) == level
  {
    var i, j, k, l := IndexAt(va, 39), IndexAt(va, 30), IndexAt(va, 21), IndexAt(va, 12);
    if level == 0 then Root
    else if level == 1 then Table1(i)
    else if level == 2 then Table2(i, j)
    else if level == 3 then Table3(i, j, k)
    else PageKey(i, j, k, l)
  }

  lemma KeyStep(va: nat, level: nat)
    requires level < 4
    ensures KeyOf(va, level + 1) == Child(KeyOf(va, level), IndexAt(va, ShiftOf(level)))
  {
  }

  /** The four indices together are the page number, and nothing else. */
  lemma KeysArePageNumbers(v: nat, w: nat)
    ensures KeyOf(v, 4) == KeyOf(w, 4) <==> PageNumber(v) == PageNumber(w)
  {
    PageNumberFromIndices(v);
    PageNumberFromIndices(w);
    if PageNumber(v) == PageNumber(w) {
      var a, b := KeyOf(v, 4), KeyOf(w, 4);
      DigitsUnique((a.i * 512 + a.j) * 512 + a.k, a.l, (b.i * 512 + b.j) * 512 + b.k, b.l);
      DigitsUnique(a.i * 512 + a.j, a.k, b.i * 512 + b.j, b.k);
      DigitsUnique(a.i, a.j, b.i, b.j);
    }
  }

  lemma DigitsUnique(p: nat, q: nat, r: nat, s: nat)
    requires q < 512 && s < 512 && p * 512 + q == r * 512 + s
    ensures p == r && q == s
  {
  }

  lemma PageNumberFromIndices(v: nat)
    ensures PageNumber(v) == ((IndexAt(v, 39) * 512 + IndexAt(v, 30)) * 512 + IndexAt(v, 21)) * 512 + IndexAt(v, 12)
  {
    var p0 := v / 0x1000;
    var p1 := v / 0x20_0000;
    var p2 := v / 0x4000_0000;
    var p3 := v / 0x80_0000_0000;
    assert p1 == p0 / 512 && p2 == p1 / 512 && p3 == p2 / 512;
    BitsSplit(p0, p1, p2, p3);
  }

  lemma BitsSplit(p0: nat, p1: nat, p2: nat, p3: nat)
    requires p1 == p0 / 512 && p2 == p1 / 512 && p3 == p2 / 512
    ensures p0 % 0x10_0000_0000 == ((p3 % 512 * 512 + p2 % 512) * 512 + p1 % 512) * 512 + p0 % 512
  {
    var low := ((p3 % 512 * 512 + p2 % 512) * 512 + p1 % 512) * 512 + p0 % 512;
    assert p0 == p1 * 512 + p0 % 512;
    assert p1 == p2 * 512 + p1 % 512;
    assert p2 == p3 * 512 + p2 % 512;
    assert p3 == p3 / 512 * 512 + p3 % 512;
    LowBits(p0, p3 / 512, low);
  }

  lemma LowBits(p: nat, high: nat, low: nat)
    requires p == high * 0x10_0000_0000 + low && low < 0x10_0000_0000
    ensures p % 0x10_0000_0000 == low
  {
  }

  function EntryAddress(table: nat, index: nat): nat { table + index * 8 }

  lemma EntryInjective(t: nat, i: nat, u: nat, j: nat)
    requires IsAligned(t) && IsAligned(u) && i < TABLE_ENTRIES && j < TABLE_ENTRIES
    ensures EntryAddress(t, i) == EntryAddress(u, j) <==> t == u && i == j
  {
  }

  function LeafTranslation(w: nat): Translation {
    if IsTableOrPage(w) && AccessFlag(w) then Page(OutputAddress(w), AttributesOf(w)) else Fault
  }

  /** The hardware walk for `va` from `table` at `level`. */
  function HardwareWalk(mem: map<nat, nat>, table: nat, va: nat, level: nat): Translation
    requires level < 4
    decreases 4 - level
  {
    var a := EntryAddress(table, IndexAt(va, ShiftOf(level)));
    if a !in mem then Fault
    else if level == 3 then LeafTranslation(mem[a])
    else if !IsValidBit(mem[a]) then Fault
    else if IsTableOrPage(mem[a]) then HardwareWalk(mem, OutputAddress(mem[a]), va, level + 1)
    else if level == 0 then Fault
    else Block(level, mem[a])
  }

  /** A page is found by four reads, with nine bits of the address each from bit 39 down, through
      three table descriptors to a page descriptor. */
  lemma WalkIsFourReads(mem: map<nat, nat>, root: nat, va: nat, pa: nat)
    ensures var t := HardwareWalk(mem, root, va, 0);
            t.Page? && t.address == pa <==>
            && var a0 := root + va / 0x80_0000_0000 % 512 * 8;
            a0 in mem && mem[a0] % 4 == 3
            && var a1 := mem[a0] / 0x1000 % 0x10_0000_0000 * 0x1000 + va / 0x4000_0000 % 512 * 8;
            a1 in mem && mem[a1] % 4 == 3
            && var a2 := mem[a1] / 0x1000 % 0x10_0000_0000 * 0x1000 + va / 0x20_0000 % 512 * 8;
            a2 in mem && mem[a2] % 4 == 3
            && var a3 := mem[a2] / 0x1000 % 0x10_0000_0000 * 0x1000 + va / 0x1000 % 512 * 8;
            a3 in mem && mem[a3] % 4 == 3 && mem[a3] % 0x1000 / 0x400 % 2 == 1
            && mem[a3] / 0x1000 % 0x10_0000_0000 * 0x1000 == pa
  {
    hide HardwareWalk;
    var a0 := root + va / 0x80_0000_0000 % 512 * 8;
    OneRead(mem, root, va, 0, pa);
    if a0 in mem {
      var t1 := mem[a0] / 0x1000 % 0x10_0000_0000 * 0x1000;
      var a1 := t1 + va / 0x4000_0000 % 512 * 8;
      OneRead(mem, t1, va, 1, pa);
      if a1 in mem {
        var t2 := mem[a1] / 0x1000 % 0x10_0000_0000 * 0x1000;
        var a2 := t2 + va / 0x20_0000 % 512 * 8;
        OneRead(mem, t2, va, 2, pa);
        if a2 in mem {
          LastRead(mem, mem[a2] / 0x1000 % 0x10_0000_0000 * 0x1000, va, pa);
        }
      }
    }
  }

  lemma OneRead(mem: map<nat, nat>, table: nat, va: nat, level: nat, pa: nat)
    requires level < 3
    ensures var t := HardwareWalk(mem, table, va, level);
            var a := table + (if level == 0 then va / 0x80_0000_0000 else if level == 1 then va / 0x4000_0000
                              else va / 0x20_0000) % 512 * 8;
            t.Page? && t.address == pa <==>
            && a in mem && mem[a] % 4 == 3
            && var u := HardwareWalk(mem, mem[a] / 0x1000 % 0x10_0000_0000 * 0x1000, va, level + 1);
            u.Page? && u.address == pa
  {
    var i := IndexAt(va, ShiftOf(level));
    assert i == (if level == 0 then va / 0x80_0000_0000 else if level == 1 then va / 0x4000_0000
                 else va / 0x20_0000) % 512;
    var a := EntryAddress(table, i);
    if a in mem {
      ValidIfTable(mem[a]);
    }
    hide IndexAt, ShiftOf, IsValidBit;
  }

  lemma ValidIfTable(w: nat)
    ensures IsTableOrPage(w) <==> w % 4 == 3
    ensures IsTableOrPage(w) ==> IsValidBit(w)
    ensures OutputAddress(w) == w / 0x1000 % 0x10_0000_0000 * 0x1000
  {
  }

  lemma LastRead(mem: map<nat, nat>, table: nat, va: nat, pa: nat)
    ensures var t := HardwareWalk(mem, table, va, 3);
            var a := table + va / 0x1000 % 512 * 8;
            t.Page? && t.address == pa <==>
            a in mem && mem[a] % 4 == 3 && mem[a] % 0x1000 / 0x400 % 2 == 1
            && mem[a] / 0x1000 % 0x10_0000_0000 * 0x1000 == pa
  {
  }
}

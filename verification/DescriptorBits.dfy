/**
 The flag arithmetic of mmu_map in kern/arch/aarch64/mmu.c: fields or-ed together one by one,
 and why the result is the descriptor with those fields.
 */
module DescriptorBits {
  import opened Bits
  import opened Descriptors

  const AF := 0x400                  // 1 << 10
  const SH_INNER_SHAREABLE := 0x300  // 3 << 8
  const AP_K_RW := 0
  const AP_U_RW := 0x40
  const AP_K_R := 0x80
  const AP_U_R := 0xC0
  const MAIR_IDX0 := 0
  const MAIR_IDX1 := 4

  function Bit(b: bool): nat { if b then 1 else 0 }

  /** pte_flags with these fields. */
  function Flags(a: Attributes): nat { a.ap * 0x40 + Bit(a.uxn) * UXN + Bit(a.pxn) * PXN + a.mair * 4 }

  lemma Powers()
    ensures Pow2(0) == 1 && Pow2(1) == 2 && Pow2(2) == 4 && Pow2(3) == 8 && Pow2(8) == 0x100 && Pow2(10) == 0x400
    ensures Pow2(12) == 0x1000 && Pow2(36) == 0x10_0000_0000 && Pow2(53) == PXN && Pow2(54) == UXN
  {
    assert Pow2(18) == 0x4_0000 && Pow2(27) == 0x800_0000;
    assert Pow2(36) == 0x10_0000_0000 && Pow2(45) == 0x2000_0000_0000;
  }

  lemma OrUxn(a: Attributes)
    requires ValidAttributes(a) && a.mair == 0
    ensures Or(Flags(a), UXN) == Flags(a.(uxn := true))
  {
    hide Or, Pow2;
    Powers();
    var low := a.ap * 0x40 + Bit(a.pxn) * PXN;
    if a.uxn {
      OrSet(0, low, 54);
    } else {
      OrField(0, low, 1, 54, 1);
    }
  }

  lemma OrPxn(a: Attributes)
    requires ValidAttributes(a) && a.uxn && !a.pxn && a.mair == 0
    ensures Or(Flags(a), PXN) == Flags(a.(pxn := true))
  {
    hide Or, Pow2;
    Powers();
    OrField(1, a.ap * 0x40, 1, 53, 1);
  }

  lemma OrMair(a: Attributes, mair: nat)
    requires ValidAttributes(a) && a.mair == 0 && mair < 8
    ensures Or(Flags(a), mair * 4) == Flags(a.(mair := mair))
  {
    hide Or, Pow2;
    Powers();
    OrField(a.ap * 2 + Bit(a.uxn) * 0x2_0000_0000_0000 + Bit(a.pxn) * 0x1_0000_0000_0000, 0, mair, 2, 3);
  }

  /** The address goes between the high and the low flags. */
  lemma OrAddress(pa: nat, a: Attributes)
    requires ValidAttributes(a) && IsPageAddress(pa)
    ensures Or(pa, Flags(a)) == pa + Flags(a)
  {
    hide Or, Pow2, IsPageAddress;
    Powers();
    OrCommutes(pa, Flags(a));
    PageOf(pa);
    OrField(Bit(a.uxn) * 64 + Bit(a.pxn) * 32, a.ap * 0x40 + a.mair * 4, pa / PAGE_SIZE, 12, 36);
  }

  lemma PageOf(pa: nat)
    requires IsPageAddress(pa)
    ensures pa == pa / PAGE_SIZE * PAGE_SIZE && pa / PAGE_SIZE < 0x10_0000_0000
  {
  }

  lemma OrAccessFlag(pa: nat, a: Attributes)
    requires ValidAttributes(a) && IsPageAddress(pa)
    ensures Or(pa + Flags(a), AF) == pa + Flags(a) + AF
  {
    hide Or, Pow2, IsPageAddress;
    Powers();
    PageOf(pa);
    OrField(pa / PAGE_SIZE * 2 + Bit(a.uxn) * 0x800_0000_0000 + Bit(a.pxn) * 0x400_0000_0000,
      a.ap * 0x40 + a.mair * 4, 1, 10, 1);
  }

  lemma OrShareable(pa: nat, a: Attributes)
    requires ValidAttributes(a) && IsPageAddress(pa)
    ensures Or(pa + Flags(a) + AF, SH_INNER_SHAREABLE) == pa + Flags(a) + AF + SH_INNER_SHAREABLE
  {
    hide Or, Pow2, IsPageAddress;
    Powers();
    PageOf(pa);
    OrField(pa / PAGE_SIZE * 4 + Bit(a.uxn) * 0x1000_0000_0000 + Bit(a.pxn) * 0x800_0000_0000 + 1,
            a.ap * 0x40 + a.mair * 4, 3, 8, 2);
  }

  /** `w | 3`, for a word with two low zeros. */
  lemma OrValid(w: nat)
    requires w % 4 == 0
    ensures Or(w, 3) == w + 3
  {
    hide Or, Pow2;
    Powers();
    OrField(w / 4, 0, 3, 0, 2);
    assert w / 4 * 4 == w;
  }

  lemma FlagsBelowBit2(pa: nat, a: Attributes)
    requires ValidAttributes(a) && IsPageAddress(pa)
    ensures (pa + Flags(a) + AF + SH_INNER_SHAREABLE) % 4 == 0
  {
    hide IsPageAddress;
    PageOf(pa);
    var w := pa / PAGE_SIZE * 1024 + a.ap * 0x10 + Bit(a.uxn) * 0x10_0000_0000_0000 + Bit(a.pxn) * 0x8_0000_0000_0000
             + a.mair + 0x100 + 0xC0;
    assert pa + Flags(a) + AF + SH_INNER_SHAREABLE == w * 4;
  }

  lemma FlagsEncode(pa: nat, a: Attributes)
    requires ValidAttributes(a) && IsPageAddress(pa)
    ensures Or(Or(Or(Or(pa, Flags(a)), AF), SH_INNER_SHAREABLE), 3) == Encode(pa, a)
  {
    hide Or, IsPageAddress;
    OrAddress(pa, a);
    OrAccessFlag(pa, a);
    OrShareable(pa, a);
    FlagsBelowBit2(pa, a);
    OrValid(pa + Flags(a) + AF + SH_INNER_SHAREABLE);
  }

  /** From the flags to the descriptor: the fields asked for, whether UXN is or-ed in once,
      twice, or not at all. */
  method PageDescriptor(pa: nat, flags: nat) returns (word: nat)
    requires IsPageAddress(pa)
    ensures word == Encode(pa, AttributesFor(flags))
  {
    hide Or, Encode, IsPageAddress, ProtRead, ProtWrite, ProtExec, ProtUser, MemMmio;
    var pteFlags := 0;
    ghost var a := Attributes(0, false, false, 0);
    var kernelOnly := !ProtUser(flags);
    if ProtWrite(flags) {
      OrZero(if kernelOnly then AP_K_RW else AP_U_RW);
      pteFlags := Or(pteFlags, if kernelOnly then AP_K_RW else AP_U_RW);
      a := a.(ap := if kernelOnly then 0 else 1);
    } else if ProtRead(flags) {
      OrZero(if kernelOnly then AP_K_R else AP_U_R);
      pteFlags := Or(pteFlags, if kernelOnly then AP_K_R else AP_U_R);
      a := a.(ap := if kernelOnly then 2 else 3);
    }
    assert pteFlags == Flags(a);
    if !ProtExec(flags) {
      OrUxn(a);
      pteFlags := Or(pteFlags, UXN);
      a := a.(uxn := true);
      OrPxn(a);
      pteFlags := Or(pteFlags, PXN);
      a := a.(pxn := true);
    }
    if kernelOnly {
      OrUxn(a);
      pteFlags := Or(pteFlags, UXN);
      a := a.(uxn := true);
    }
    if MemMmio(flags) {
      OrMair(a, 1);
      pteFlags := Or(pteFlags, MAIR_IDX1);
      a := a.(mair := 1);
    } else {
      OrMair(a, 0);
      pteFlags := Or(pteFlags, MAIR_IDX0);
    }
    assert a == AttributesFor(flags);
    FlagsEncode(pa, a);
    word := Or(Or(Or(Or(pa, pteFlags), AF), SH_INNER_SHAREABLE), 3);
  }
}

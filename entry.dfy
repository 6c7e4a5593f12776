/** The boot entry point (src/entry.rs): each hart computes the top of its own 4096-byte
    slab above the linker symbol `stack0` before jumping to `start`. */
module Entry {
  import opened Words
  import opened Safety
  import Arch

  /** `li a0, 1024*4`. */
  const STACK_SIZE: Usize := 1024 * 4

  /** The stack top of hart `hartid`, as an unbounded integer. */
  function StackTop(stack0: int, hartid: int): (top: int) {
    stack0 + STACK_SIZE * (hartid + 1)
  }

  /** Hart `hartid` owns the `STACK_SIZE` bytes below its stack top,
      `[stack0 + STACK_SIZE * hartid, StackTop(stack0, hartid))`. */
  predicate InSlab(addr: int, stack0: int, hartid: int) {
    StackTop(stack0, hartid) - STACK_SIZE <= addr < StackTop(stack0, hartid)
  }

  /** Keeping the low 64 bits after each of `addi`, `mul` and `add` gives the low 64 bits
      of the whole stack-top expression. */
  lemma {:induction false} StepwiseWrapIsWrap(stack0: int, hartid: int)
    ensures Wrap(stack0 + Wrap(STACK_SIZE * Wrap(hartid + 1))) == Wrap(StackTop(stack0, hartid))
  {
    WrapMulRight(STACK_SIZE, hartid + 1);
    WrapAddRight(stack0, STACK_SIZE * (hartid + 1));
  }

  /** The instruction sequence of `_entry` up to the call, one RV64 instruction per step,
      with the low-64-bit results those instructions keep. The final `sp` is the stack top
      reduced modulo 2^64, and the stack top itself when that fits in a word. */
  method EntryStackPointer(f: CsrFile, stack0: Usize) returns (sp: Usize)
    requires f.Valid()
    ensures sp == StackTop(stack0, f.regs[Arch.CSR_MHARTID] as int) % WORD_MODULUS
    ensures StackTop(stack0, f.regs[Arch.CSR_MHARTID] as int) < WORD_MODULUS ==>
              sp == StackTop(stack0, f.regs[Arch.CSR_MHARTID] as int)
  {
    sp := stack0;                         // la sp, stack0
    var a0: Usize := STACK_SIZE;          // li a0, 1024*4
    var id := f.Read(Arch.CSR_MHARTID);   // csrr a1, mhartid
    var a1: Usize := id as int;
    ghost var h: int := a1;
    a1 := Wrap(a1 + 1);                   // addi a1, a1, 1
    a0 := Wrap(a0 * a1);                  // mul a0, a0, a1
    sp := Wrap(sp + a0);                  // add sp, sp, a0
    StepwiseWrapIsWrap(stack0, h);
  }

  // The next three lemmas are about the unwrapped layout `StackTop`; it is the `sp` that
  // `_entry` computes as long as the top fits in a word (`EntryStackPointer`). The lemmas
  // after `StackPointerIncreasing` state the same facts about the computed, wrapped values.

  /** Hart 0 included, the offset is at least one full stack: no hart starts on `stack0`. */
  lemma OffsetNeverZero(hartid: nat)
    ensures StackTop(0, hartid) >= STACK_SIZE > 0
  {
  }

  /** Stack tops of distinct harts differ by a nonzero multiple of `STACK_SIZE`. */
  lemma {:induction false} StackTopsApart(stack0: int, h1: nat, h2: nat)
    requires h1 != h2
    ensures StackTop(stack0, h2) - StackTop(stack0, h1) == STACK_SIZE * (h2 - h1) != 0
  {
  }

  /** Distinct harts own disjoint slabs. */
  lemma {:induction false} SlabsDisjoint(stack0: int, h1: nat, h2: nat, addr: int)
    requires h1 != h2
    ensures !(InSlab(addr, stack0, h1) && InSlab(addr, stack0, h2))
  {
  }

  /** The hart whose slab holds `addr`, for an address at or above `stack0`. */
  function SlabOwner(stack0: int, addr: int): (h: nat)
    requires stack0 <= addr
    ensures InSlab(addr, stack0, h)
  {
    (addr - stack0) / STACK_SIZE
  }

  /** The slabs of harts `0 .. harts - 1` tile the stack area `[stack0, stack0 + STACK_SIZE * harts)`:
      every byte in it belongs to some hart's slab, and no slab reaches outside it. With
      `SlabsDisjoint`, each byte belongs to exactly one hart. */
  lemma {:induction false} SlabsTileStackArea(stack0: int, harts: nat, addr: int)
    ensures stack0 <= addr < stack0 + STACK_SIZE * harts <==>
              exists h: nat :: h < harts && InSlab(addr, stack0, h)
  {
    if stack0 <= addr < stack0 + STACK_SIZE * harts {
      var h := SlabOwner(stack0, addr);
      assert h < harts;
    }
    if exists h: nat :: h < harts && InSlab(addr, stack0, h) {
      var h: nat :| h < harts && InSlab(addr, stack0, h);
      assert STACK_SIZE * (h + 1) <= STACK_SIZE * harts;
    }
  }

  /** With no wrap-around for the higher hart id, the stack pointers `_entry` computes grow
      strictly with the hart id. */
  lemma {:induction false} StackPointerIncreasing(stack0: Usize, h1: nat, h2: nat)
    requires h1 < h2
    requires StackTop(stack0, h2) < WORD_MODULUS
    ensures StackTop(stack0, h1) % WORD_MODULUS < StackTop(stack0, h2) % WORD_MODULUS
  {
  }

  /** While `mhartid + 1 < 2^52`, the offset `_entry` computes with wrapping `addi` and `mul`
      is still at least one full stack. */
  lemma {:induction false} ComputedOffsetNeverZero(hartid: nat)
    requires hartid + 1 < 0x10_0000_0000_0000
    ensures Wrap(STACK_SIZE * Wrap(hartid + 1)) >= STACK_SIZE
  {
    assert STACK_SIZE * (hartid + 1) < WORD_MODULUS;
  }

  /** For harts whose stack tops fit in a word, the computed stack pointers differ by a
      nonzero multiple of `STACK_SIZE`, and the slabs `[sp - STACK_SIZE, sp)` below them
      share no address. */
  lemma {:induction false} ComputedSlabsDisjoint(stack0: Usize, h1: nat, h2: nat, addr: int)
    requires h1 != h2
    requires StackTop(stack0, h1) < WORD_MODULUS && StackTop(stack0, h2) < WORD_MODULUS
    ensures StackTop(stack0, h1) % WORD_MODULUS != StackTop(stack0, h2) % WORD_MODULUS
    ensures (StackTop(stack0, h2) % WORD_MODULUS - StackTop(stack0, h1) % WORD_MODULUS) % STACK_SIZE == 0
    ensures !(StackTop(stack0, h1) % WORD_MODULUS - STACK_SIZE <= addr < StackTop(stack0, h1) % WORD_MODULUS &&
              StackTop(stack0, h2) % WORD_MODULUS - STACK_SIZE <= addr < StackTop(stack0, h2) % WORD_MODULUS)
  {
    assert StackTop(stack0, h1) % WORD_MODULUS == StackTop(stack0, h1);
    assert StackTop(stack0, h2) % WORD_MODULUS == StackTop(stack0, h2);
    StackTopsApart(stack0, h1, h2);
    SlabsDisjoint(stack0, h1, h2, addr);
  }

  /** Without a bound on the hart id the computation wraps: for `mhartid = 2^64 - 1` the
      `addi` yields 0, the offset is 0 and `sp` is `stack0` itself, and hart `2^52` gets the
      same stack pointer as hart 0. */
  lemma WrapAroundAtLargeHartIds(stack0: Usize)
    ensures Wrap(USIZE_MAX + 1) == 0
    ensures Wrap(STACK_SIZE * Wrap(USIZE_MAX + 1)) == 0
    ensures Wrap(stack0 + Wrap(STACK_SIZE * Wrap(USIZE_MAX + 1))) == stack0
    ensures StackTop(stack0, 0x10_0000_0000_0000) % WORD_MODULUS == StackTop(stack0, 0) % WORD_MODULUS
  {
    assert StackTop(stack0, 0x10_0000_0000_0000) == StackTop(stack0, 0) + WORD_MODULUS;
    WrapAddMultiple(StackTop(stack0, 0), 1);
  }
}

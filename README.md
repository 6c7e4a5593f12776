# RISC-V kernel register-access layer, modelled in Dafny

This project models the register-access layer of a bare-metal RISC-V (RV64) kernel:

- the two validated wrappers: `ValidAddress`, which admits only addresses in the kernel's
  physical window `[0x8000_0000, 0x8800_0000)`, and `TimerCompareValue`, whose check admits
  every word;
- the generic CSR primitive `read_csr!` / `write_csr!`, modelled as a software register file.
  `Safety.CsrFile` is a class holding a map from 12-bit CSR number to 64-bit word;
- the field-typed views of `src/arch.rs`. Each CSR has a closed family of pre-shifted bit
  patterns (`MStatVal`, `SStatVal`, `SipVal`, `SieVal`) and a writer that accepts only its own
  family. In the source each accessor issues its own `csrr`/`csrw` on the named CSR; the model
  routes that single instruction through `CsrFile.Read` or `CsrFile.Write`. So every `write_*`
  replaces the whole register, and every `read_*` returns the current contents and changes
  nothing;
- the stand-alone binary's mstatus constants and its hart-id read (`kernel/src/main.rs`);
- the boot-stack computation of `_entry`: `sp = stack0 + 4096 * (mhartid + 1)`.
  It is modelled one RV64 instruction at a time, each result keeping its low 64 bits.

Register numbers and field positions follow the RISC-V Privileged Architecture:

- mhartid is 0xF14 (RISC-V Privileged Architecture, section 3.1.5);
- mstatus.MPP is bits 12:11 and MIE is bit 3 (RISC-V Privileged Architecture, section 3.1.6);
- sstatus SPP/SPIE/SIE are bits 8/5/1 (RISC-V Privileged Architecture, section 4.1.1);
- sip/sie software/timer/external are bits 1/5/9 (RISC-V Privileged Architecture, section 4.1.3).

Machine words are seen two ways (`words.dfy`):

- `Word` (`bv64`) is a bit pattern: what a CSR holds and what the enum discriminants are.
- `Usize` (an integer in `[0, 2^64)`) is an unsigned number: a validated address, a timer
  value, or a general-purpose register used in arithmetic.

The raw address `write_mepc` stores is only moved into a register, never compared or added to,
so the model passes it as a `Word` bit pattern.

`usize` and `u64` are both 64 bits wide, because the target is RV64. The only conversion
between the two views is the `csrr a1, mhartid` of `_entry`.

Each writer's parameter type is its own family's datatype. So a status variant can never be
written to the interrupt-enable register: Dafny's type checker rejects it, just as Rust's does.

Files: `words.dfy` (word views, wrapping arithmetic, bit predicates), `memset.dfy`,
`safety.dfy`, `arch.dfy`, `kernel_main.dfy`, `entry.dfy`. There is one module per source file, plus `Words` for the shared word views and wrapping arithmetic.

## Model

| member | source | states |
|---|---|---|
| Memset.NewValidAddress | src/memset.rs:8-14 | succeeds exactly when `KERNEL_BASE_ADDRESS <= addr < PHYSICAL_MEMORY_LIMIT`; on success `get` gives back `addr`; otherwise the error is "Invalid memory address" |
| Memset.GetAddress | src/memset.rs:16-18 | every address a `ValidAddress` yields lies in the kernel window (the range is a type invariant, since `new` is the only constructor) |
| Memset.GetThenNew | src/memset.rs:5-18 | re-validating what `get` returns yields the same `ValidAddress`, so `new` and `get` are inverse on the window |
| Memset.WindowBoundaries | src/memset.rs:1-14 | `PHYSICAL_MEMORY_LIMIT == 0x8800_0000` (no overflow); `new(0x8000_0000)` succeeds and round-trips; `new(0x7FFF_FFFF)`, `new(PHYSICAL_MEMORY_LIMIT)` and `new(0)` fail; `new(PHYSICAL_MEMORY_LIMIT - 1)` succeeds |
| Memset.NewTimerCompareValue | src/memset.rs:25-31 | succeeds for every word, and `get` gives back the value passed in |
| Memset.GetTimerValue | src/memset.rs:33-35 | returns the wrapped value: re-validating it yields the same `TimerCompareValue` |
| Memset.NewThenGetTimer | src/memset.rs:25-35 | `get` after `new` is the identity on words |
| Safety.Written | src/safety.rs:25-35 | after `csrw id, val`, slot `id` holds `val` and every other slot keeps its value |
| Safety.WriteIgnoresOldValue | src/safety.rs:25-35 | a write is a full replace: the new contents do not depend on the old ones |
| Safety.LastWriteWins | src/safety.rs:25-35 | of two writes to one CSR only the last is observable |
| Safety.DistinctWritesCommute | src/safety.rs:25-35 | writes to different CSRs do not interfere and commute |
| Safety.WriteBackIsIdentity | src/safety.rs:9-35 | writing back the value just read leaves the register file unchanged |
| Safety.CsrFile.Read | src/safety.rs:9-21 | `read_csr!(id)` returns the current contents of CSR `id` and changes nothing |
| Safety.CsrFile.Write | src/safety.rs:25-35 | `write_csr!(id, val)` leaves the register file equal to `Written(old, id, val)` |
| Arch.AccessorCsrsDistinct | src/arch.rs:13 | the six CSRs the accessors name are distinct, so each writer leaves what the other readers see unchanged |
| Arch.MStatValMaskAndZero | src/arch.rs:31-38 | `MMV` equals `MSTATUS_MPP_MASK` and `UMV` is zero |
| Arch.MStatValWithinMask | src/arch.rs:31-40 | `UMV`, `SMV`, `MMV` lie inside the MPP mask; `MIE` is a single bit disjoint from it |
| Arch.MStatValInjective | src/arch.rs:35-40 | the four discriminants are pairwise distinct (both directions) |
| Arch.MStatValFields | src/arch.rs:28-40 | decoded through the architected layout, each variant sets MPP to its privilege's encoding (`MIE` leaves MPP at user), and MIE is set exactly by `MIE` |
| Arch.ReadMhartid | src/arch.rs:13-26 | returns the contents of CSR 0xF14, changing nothing |
| Arch.ReadMstatus | src/arch.rs:42-52 | returns the contents of mstatus, changing nothing |
| Arch.WriteMstatus | src/arch.rs:54-62 | mstatus becomes exactly the variant's value; no other CSR changes |
| Arch.WriteMepc | src/arch.rs:68-76 | mepc becomes the raw address with no validation; no other CSR changes |
| Arch.SStatValLayout | src/arch.rs:85-94 | each `SStatVal` is one bit, at position 8, 5, 4, 1 or 0 |
| Arch.SStatValDisjoint | src/arch.rs:88-94 | distinct `SStatVal` variants share no bit |
| Arch.ReadSstatus | src/arch.rs:96-106 | returns the contents of sstatus, changing nothing |
| Arch.WriteSstatus | src/arch.rs:108-116 | sstatus becomes exactly the variant's value; no other CSR changes |
| Arch.SieValLayout | src/arch.rs:149-160 | the `SieVal` variants equal `SIE_SSIE`, `SIE_STIE`, `SIE_SEIE`, single bits at 1, 5 and 9 |
| Arch.SipMatchesSie | src/arch.rs:118-156 | each `SipVal` pending bit is where its `SieVal` enable bit is; distinct sources use disjoint bits |
| Arch.ReadSip | src/arch.rs:127-137 | returns the contents of sip, changing nothing |
| Arch.WriteSip | src/arch.rs:139-147 | sip becomes exactly the variant's value; no other CSR changes |
| Arch.ReadSie | src/arch.rs:162-171 | returns the contents of sie, changing nothing |
| Arch.WriteSie | src/arch.rs:173-181 | sie becomes exactly the variant's value; no other CSR changes |
| KernelMain.MstatusConstants | kernel/src/main.rs:10-14 | `MPP_M == MPP_MASK`, `MPP_U == 0`, the three MPP values are distinct and inside the mask, and MIE is bit 3, outside the mask |
| KernelMain.AgreesWithArch | kernel/src/main.rs:10-14 | the binary's constants equal the library's `MStatVal` discriminants and decode to user, supervisor and machine mode |
| KernelMain.ReadMachineHartid | kernel/src/main.rs:16-25 | reads the literal CSR 0xF14, the same CSR as `CSR_MHARTID`, and changes nothing |
| Words.Wrap | src/entry.rs:15-19 | an RV64 `addi`/`mul`/`add` result equals the true result when that fits a word, and the true result minus 2^64 after a single overflow |
| Entry.EntryStackPointer | src/entry.rs:9-19 | the final `sp` is `stack0 + 4096 * (mhartid + 1)` modulo 2^64, and exactly that when it fits in a word |
| Entry.OffsetNeverZero | src/entry.rs:14-17 | for the unwrapped layout, which is the computed `sp` while it fits in a word: the offset is at least one full stack even for hart 0 |
| Entry.StackTopsApart | src/entry.rs:10-19 | for the unwrapped layout, which is the computed `sp` while it fits in a word: stack tops of distinct harts differ by a nonzero multiple of 4096 |
| Entry.SlabsDisjoint | src/entry.rs:10-19 | for the unwrapped layout, which is the computed `sp` while it fits in a word: distinct harts own disjoint slabs |
| Entry.SlabOwner | src/entry.rs:10-19 | every address at or above `stack0` lies in the slab of the hart this function names |
| Entry.SlabsTileStackArea | src/entry.rs:10-19 | an address lies in `[stack0, stack0 + 4096 * n)` exactly when it lies in the slab of one of harts `0 .. n-1`, so the per-hart slabs tile the stack area |
| Entry.StepwiseWrapIsWrap | src/entry.rs:15-19 | keeping the low 64 bits after each of `addi`, `mul` and `add` gives the low 64 bits of the whole expression `stack0 + 4096 * (hartid + 1)` |
| Entry.StackPointerIncreasing | src/entry.rs:17-19 | when the higher hart's stack top does not wrap, the computed stack pointers grow strictly with the hart id |
| Entry.ComputedOffsetNeverZero | src/entry.rs:13-17 | while `mhartid + 1 < 2^52`, the offset computed with wrapping `addi` and `mul` is at least 4096 |
| Entry.ComputedSlabsDisjoint | src/entry.rs:10-19 | for two distinct harts whose tops fit in a word, the computed stack pointers differ by a nonzero multiple of 4096 and the slabs `[sp - 4096, sp)` below them are disjoint |
| Entry.WrapAroundAtLargeHartIds | src/entry.rs:13-19 | without a bound the computation wraps: `mhartid = 2^64 - 1` gives a zero offset and `sp == stack0`, and hart `2^52` gets hart 0's stack pointer |

## Left out

- The `asm!` instructions themselves and their options (`nostack`, `preserves_flags`, `noreturn`) are hardware and compiler semantics. Each CSR access is an operation on the register-file state.
- Hardware WARL and read-only behaviour is not modelled: STIP/SEIP in sip are set by hardware, and a real CSR may not read back what was written. sstatus, sie and sip are restricted views of mstatus, mie and mip in hardware. The model keeps each as its own slot, so read-after-write holds only for the software model.
- Safety.CsrFile.Write: the `$val as usize` cast is taken as already done. The model's value parameter is a full word, and casts from narrower or signed integer types are not modelled.
- Rust can only express that a CSR id is a compile-time `const` operand as a property of the call site. The model takes any 12-bit CSR number.
- The reset contents of the CSRs are implementation-defined in hardware. The register file's constructor takes them as a parameter.
- The linker symbol `stack0` is a parameter. The `call` to `start::start` and the `start` module are not part of this model.
- `spin` (src/entry.rs:29-35) is a deliberate endless loop with no observable result.
- `println!` in the binary's `main` is console I/O.
- `src/main.rs` is module declarations, a panic handler that loops forever, and a call to `start::init`.
- The modules `console`, `kalloc`, `proc`, `sleeplock`, `spinlock`, `start`, `syscall`, `sysproc`, `trampoline`, `trap`, `uart` and `vm` are not part of this model. There is no SATP composer, delegation writer or privilege-transition sequencer in the modelled source files, so the model has none.
- Hart ids large enough to wrap the stack computation (`mhartid + 1 >= 2^52` for a zero `stack0`) break the per-hart separation. `_entry` has no guard against them. The model exhibits this in `Entry.WrapAroundAtLargeHartIds` and promises separation only while the stack tops fit in a word.
- Only one hart is modelled. Every CSR here is hart-local, so harts do not interact through this layer.

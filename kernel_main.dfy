/** The stand-alone kernel binary (kernel/src/main.rs): its own copy of the mstatus
    constants, as `u64`, and a hart-id read through the literal CSR number. */
module KernelMain {
  import opened Words
  import opened Safety
  import Arch

  const MSTATUS_MPP_MASK: Word := 0x3 << 11
  const MSTATUS_MPP_U: Word := 0x0 << 11
  const MSTATUS_MPP_S: Word := 0x1 << 11
  const MSTATUS_MPP_M: Word := 0x3 << 11
  const MSTATUS_MIE: Word := 1 << 3

  /** The machine-mode value is the whole mask, the user-mode value is zero, the three
      privilege values are distinct and inside the mask, and MIE lies outside it. */
  lemma MstatusConstants()
    ensures MSTATUS_MPP_M == MSTATUS_MPP_MASK
    ensures MSTATUS_MPP_U == 0
    ensures MSTATUS_MPP_U != MSTATUS_MPP_S && MSTATUS_MPP_S != MSTATUS_MPP_M && MSTATUS_MPP_U != MSTATUS_MPP_M
    ensures WithinMask(MSTATUS_MPP_U, MSTATUS_MPP_MASK)
    ensures WithinMask(MSTATUS_MPP_S, MSTATUS_MPP_MASK)
    ensures WithinMask(MSTATUS_MPP_M, MSTATUS_MPP_MASK)
    ensures IsSingleBit(MSTATUS_MIE) && BitAt(MSTATUS_MIE, 3) && Disjoint(MSTATUS_MIE, MSTATUS_MPP_MASK)
  {
  }

  /** The binary's constants are numerically the library's `MStatVal` discriminants, and the
      MPP values decode to user, supervisor and machine mode. */
  lemma AgreesWithArch()
    ensures MSTATUS_MPP_MASK == Arch.MSTATUS_MPP_MASK
    ensures MSTATUS_MPP_U == Arch.MStatVal.UMV.Value()
    ensures MSTATUS_MPP_S == Arch.MStatVal.SMV.Value()
    ensures MSTATUS_MPP_M == Arch.MStatVal.MMV.Value()
    ensures MSTATUS_MIE == Arch.MStatVal.MIE.Value()
    ensures Arch.MppField(MSTATUS_MPP_U) == Arch.Privilege.User.Encoding()
    ensures Arch.MppField(MSTATUS_MPP_S) == Arch.Privilege.Supervisor.Encoding()
    ensures Arch.MppField(MSTATUS_MPP_M) == Arch.Privilege.Machine.Encoding()
  {
  }

  /** `read_machine_hartid`: `csrr` on the literal 0xf14, the same CSR `read_mhartid` reads. */
  method ReadMachineHartid(f: CsrFile) returns (hartid: Word)
    requires f.Valid()
    ensures hartid == f.regs[Arch.CSR_MHARTID]
  {
    hartid := f.Read(0xf14);
  }
}

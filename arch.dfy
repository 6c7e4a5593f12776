/** Field-typed register views (src/arch.rs): per architected CSR, a closed family of
    pre-shifted bit patterns and the reader/writer for that CSR. A writer accepts only its own
    family, so a pattern meant for one CSR cannot reach another. Register numbers and field
    positions follow the RISC-V Privileged Architecture. */
module Arch {
  import opened Words
  import opened Safety

  /** mhartid (RISC-V Privileged Architecture, section 3.1.5); the only CSR number the source spells out. */
  const CSR_MHARTID: CsrId := 0xf14
  /** The numbers the assembler substitutes for the CSR names used by the other accessors. */
  const CSR_MSTATUS: CsrId := 0x300
  const CSR_MEPC: CsrId := 0x341
  const CSR_SSTATUS: CsrId := 0x100
  const CSR_SIE: CsrId := 0x104
  const CSR_SIP: CsrId := 0x144

  /** The accessors below name six different CSRs, so a write through one of them leaves
      what the other five read unchanged. */
  lemma AccessorCsrsDistinct()
    ensures |{CSR_MHARTID, CSR_MSTATUS, CSR_MEPC, CSR_SSTATUS, CSR_SIE, CSR_SIP}| == 6
  {
  }

  // ---------------------------------------------------------------- machine level

  /** Isolates mstatus.MPP, bits 12:11 (RISC-V Privileged Architecture, section 3.1.6). */
  const MSTATUS_MPP_MASK: Word := 0x3 << 11

  /** `MStatVal` discriminants. */
  datatype MStatVal = MMV | UMV | SMV | MIE {
    function Value(): (w: Word) {
      match this
      case MMV => 0x3 << 11
      case UMV => 0x0 << 11
      case SMV => 0x1 << 11
      case MIE => 1 << 3
    }

    /** The variants that set the previous-privilege field. */
    predicate IsPreviousPrivilege() {
      this != MIE
    }
  }

  /** Privilege levels and their two-bit encoding (RISC-V Privileged Architecture, section 1.2); 2 is reserved. */
  datatype Privilege = User | Supervisor | Machine {
    function Encoding(): (bits: Word) {
      match this
      case User => 0
      case Supervisor => 1
      case Machine => 3
    }
  }

  /** mstatus.MPP: bits 12:11 of a status word. */
  function MppField(status: Word): (field: Word) {
    (status >> 11) & 0x3
  }

  /** mstatus.MIE: bit 3 of a status word. */
  predicate MieSet(status: Word) {
    BitAt(status, 3)
  }

  /** The privilege that writing `v` leaves in mstatus.MPP. Since a write replaces the whole
      register, writing `MIE` leaves MPP at 00, which is user mode. */
  function PreviousPrivilegeAfter(v: MStatVal): (p: Privilege) {
    match v
    case MMV => Machine
    case SMV => Supervisor
    case UMV => User
    case MIE => User
  }

  /** `MMV` is the whole MPP mask and `UMV` is zero. */
  lemma MStatValMaskAndZero()
    ensures MStatVal.MMV.Value() == MSTATUS_MPP_MASK
    ensures MStatVal.UMV.Value() == 0
  {
  }

  /** The privilege variants lie inside the MPP mask; `MIE` is a single bit outside it. */
  lemma MStatValWithinMask(v: MStatVal)
    ensures v.IsPreviousPrivilege() ==> WithinMask(v.Value(), MSTATUS_MPP_MASK)
    ensures v == MIE ==> IsSingleBit(v.Value()) && Disjoint(v.Value(), MSTATUS_MPP_MASK)
  {
  }

  /** The four discriminants are pairwise distinct. */
  lemma MStatValInjective(a: MStatVal, b: MStatVal)
    ensures a.Value() == b.Value() <==> a == b
  {
  }

  /** Read through the architected field layout, each variant written to mstatus sets MPP to
      the encoding of its privilege, and MIE is set exactly by the `MIE` variant. */
  lemma MStatValFields(v: MStatVal)
    ensures MppField(v.Value()) == PreviousPrivilegeAfter(v).Encoding()
    ensures MieSet(v.Value()) <==> v == MIE
  {
  }

  /** `read_mhartid`: the id of the executing hart, from CSR 0xf14. */
  method ReadMhartid(f: CsrFile) returns (hartid: Word)
    requires f.Valid()
    ensures hartid == f.regs[CSR_MHARTID]
  {
    hartid := f.Read(CSR_MHARTID);
  }

  /** `read_mstatus`. */
  method ReadMstatus(f: CsrFile) returns (status: Word)
    requires f.Valid()
    ensures status == f.regs[CSR_MSTATUS]
  {
    status := f.Read(CSR_MSTATUS);
  }

  /** `write_mstatus`: mstatus becomes exactly the variant's pattern. */
  method WriteMstatus(f: CsrFile, val: MStatVal)
    requires f.Valid()
    modifies f
    ensures f.Valid()
    ensures f.regs == Written(old(f.regs), CSR_MSTATUS, val.Value())
  {
    f.Write(CSR_MSTATUS, val.Value());
  }

  /** `write_mepc`: stores the raw address, unvalidated. */
  method WriteMepc(f: CsrFile, addr: Word)
    requires f.Valid()
    modifies f
    ensures f.Valid()
    ensures f.regs == Written(old(f.regs), CSR_MEPC, addr)
  {
    f.Write(CSR_MEPC, addr);
  }

  // ---------------------------------------------------------------- supervisor level

  /** `SStatVal` discriminants (sstatus, RISC-V Privileged Architecture, section 4.1.1). */
  datatype SStatVal = SPP | SPIE | UPIE | SIE | UIE {
    function Value(): (w: Word) {
      match this
      case SPP => 0x1 << 8
      case SPIE => 0x1 << 5
      case UPIE => 0x1 << 4
      case SIE => 0x1 << 1
      case UIE => 0x1 << 0
    }
  }

  /** Each sstatus variant is one bit, at the architected position. */
  lemma SStatValLayout()
    ensures IsSingleBit(SStatVal.SPP.Value()) && BitAt(SStatVal.SPP.Value(), 8)
    ensures IsSingleBit(SStatVal.SPIE.Value()) && BitAt(SStatVal.SPIE.Value(), 5)
    ensures IsSingleBit(SStatVal.UPIE.Value()) && BitAt(SStatVal.UPIE.Value(), 4)
    ensures IsSingleBit(SStatVal.SIE.Value()) && BitAt(SStatVal.SIE.Value(), 1)
    ensures IsSingleBit(SStatVal.UIE.Value()) && BitAt(SStatVal.UIE.Value(), 0)
  {
  }

  /** Distinct sstatus variants share no bit. */
  lemma SStatValDisjoint(a: SStatVal, b: SStatVal)
    requires a != b
    ensures Disjoint(a.Value(), b.Value())
  {
  }

  /** `read_sstatus`. */
  method ReadSstatus(f: CsrFile) returns (status: Word)
    requires f.Valid()
    ensures status == f.regs[CSR_SSTATUS]
  {
    status := f.Read(CSR_SSTATUS);
  }

  /** `write_sstatus`: sstatus becomes exactly the variant's single bit. */
  method WriteSstatus(f: CsrFile, val: SStatVal)
    requires f.Valid()
    modifies f
    ensures f.Valid()
    ensures f.regs == Written(old(f.regs), CSR_SSTATUS, val.Value())
  {
    f.Write(CSR_SSTATUS, val.Value());
  }

  /** `SipVal` discriminants (sip, RISC-V Privileged Architecture, section 4.1.3). */
  datatype SipVal = SSIP | STIP | SEIP {
    function Value(): (w: Word) {
      match this
      case SSIP => 0x1 << 1
      case STIP => 0x1 << 5
      case SEIP => 0x1 << 9
    }

    /** The enable bit that gates this pending bit. */
    function Enable(): (e: SieVal) {
      match this
      case SSIP => SieVal.SSIE
      case STIP => SieVal.STIE
      case SEIP => SieVal.SEIE
    }
  }

  /** `SieVal` discriminants (sie, RISC-V Privileged Architecture, section 4.1.3). */
  datatype SieVal = SSIE | STIE | SEIE {
    function Value(): (w: Word) {
      match this
      case SSIE => 0x1 << 1
      case STIE => 0x1 << 5
      case SEIE => 0x1 << 9
    }
  }

  const SIE_SSIE: Word := 0x1 << 1
  const SIE_STIE: Word := 0x1 << 5
  const SIE_SEIE: Word := 0x1 << 9

  /** The `SieVal` variants are the `SIE_*` constants: software, timer and external
      interrupt enables at bits 1, 5 and 9. */
  lemma SieValLayout()
    ensures SieVal.SSIE.Value() == SIE_SSIE && IsSingleBit(SIE_SSIE) && BitAt(SIE_SSIE, 1)
    ensures SieVal.STIE.Value() == SIE_STIE && IsSingleBit(SIE_STIE) && BitAt(SIE_STIE, 5)
    ensures SieVal.SEIE.Value() == SIE_SEIE && IsSingleBit(SIE_SEIE) && BitAt(SIE_SEIE, 9)
  {
  }

  /** sip and sie share one layout: each pending bit sits where its enable bit does, and
      distinct interrupt sources use distinct bits. */
  lemma SipMatchesSie(p: SipVal, q: SipVal)
    ensures p.Value() == p.Enable().Value()
    ensures p != q ==> Disjoint(p.Value(), q.Value())
  {
  }

  /** `read_sip`. */
  method ReadSip(f: CsrFile) returns (pend: Word)
    requires f.Valid()
    ensures pend == f.regs[CSR_SIP]
  {
    pend := f.Read(CSR_SIP);
  }

  /** `write_sip`. */
  method WriteSip(f: CsrFile, val: SipVal)
    requires f.Valid()
    modifies f
    ensures f.Valid()
    ensures f.regs == Written(old(f.regs), CSR_SIP, val.Value())
  {
    f.Write(CSR_SIP, val.Value());
  }

  /** `read_sie`. */
  method ReadSie(f: CsrFile) returns (interrupt: Word)
    requires f.Valid()
    ensures interrupt == f.regs[CSR_SIE]
  {
    interrupt := f.Read(CSR_SIE);
  }

  /** `write_sie`. */
  method WriteSie(f: CsrFile, val: SieVal)
    requires f.Valid()
    modifies f
    ensures f.Valid()
    ensures f.regs == Written(old(f.regs), CSR_SIE, val.Value())
  {
    f.Write(CSR_SIE, val.Value());
  }
}

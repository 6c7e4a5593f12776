/** The register primitive (src/safety.rs): `read_csr!` and `write_csr!` over one hart's
    control-and-status registers, modelled as a software register file keyed by CSR number. */
module Safety {
  import opened Words

  /** A CSR number: the 12-bit `csr` field of the Zicsr `csrr`/`csrw` instructions.
      In the source it is a `const` operand, so every call site names a fixed register. */
  type CsrId = x: int | 0 <= x < 0x1000

  /** One hart's CSRs, each holding a full machine word. */
  type RegisterMap = map<CsrId, Word>

  /** Every CSR number has a slot. */
  ghost predicate Complete(regs: RegisterMap) {
    forall id: CsrId :: id in regs
  }

  /** The register file after `csrw id, val`: slot `id` is replaced by `val` outright,
      and no other slot changes. */
  function Written(regs: RegisterMap, id: CsrId, val: Word): (r: RegisterMap)
    ensures id in r && r[id] == val
    ensures forall other :: other in regs && other != id ==> other in r && r[other] == regs[other]
    ensures r.Keys == regs.Keys + {id}
  {
    regs[id := val]
  }

  /** A write is a full replace, not a read-modify-write: what a slot holds afterwards
      does not depend on what it held before. */
  lemma WriteIgnoresOldValue(regs1: RegisterMap, regs2: RegisterMap, id: CsrId, val: Word)
    ensures Written(regs1, id, val)[id] == Written(regs2, id, val)[id]
  {
  }

  /** Of two writes to the same CSR only the last one is observable. */
  lemma LastWriteWins(regs: RegisterMap, id: CsrId, first: Word, second: Word)
    ensures Written(Written(regs, id, first), id, second) == Written(regs, id, second)
  {
  }

  /** Writes to different CSRs do not interfere, so their order does not matter. */
  lemma DistinctWritesCommute(regs: RegisterMap, i: CsrId, j: CsrId, a: Word, b: Word)
    requires i != j
    ensures Written(Written(regs, i, a), j, b) == Written(Written(regs, j, b), i, a)
  {
  }

  /** Writing back the value just read leaves the register file as it was. */
  lemma WriteBackIsIdentity(regs: RegisterMap, id: CsrId)
    requires id in regs
    ensures Written(regs, id, regs[id]) == regs
  {
  }

  /** Writing keeps every CSR number mapped. */
  lemma WrittenComplete(regs: RegisterMap, id: CsrId, val: Word)
    requires Complete(regs)
    ensures Complete(Written(regs, id, val))
  {
  }

  /** The CSRs of the executing hart. */
  class CsrFile {
    var regs: RegisterMap

    ghost predicate Valid()
      reads this
    {
      Complete(regs)
    }

    /** The reset contents are whatever the hardware holds; the model takes them as given. */
    constructor (init: RegisterMap)
      requires Complete(init)
      ensures Valid() && regs == init
    {
      regs := init;
    }

    /** `read_csr!(id)`: the current contents of CSR `id`; nothing changes. */
    method Read(id: CsrId) returns (value: Word)
      requires Valid()
      ensures value == regs[id]
    {
      value := regs[id];
    }

    /** `write_csr!(id, val)`: the value, already a full word, replaces CSR `id`. */
    method Write(id: CsrId, val: Word)
      requires Valid()
      modifies this
      ensures Valid()
      ensures regs == Written(old(regs), id, val)
    {
      WrittenComplete(regs, id, val);
      regs := Written(regs, id, val);
    }
  }
}

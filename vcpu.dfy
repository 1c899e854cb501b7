/**
 * The saved guest state `VmCpuRegisters`: the guest's general-purpose
 * registers, `sepc`, the `hstatus`/`sstatus` words used on guest entry, and the
 * guest's `vsatp`.  The struct itself lives in vcpu.rs, which is not part of
 * this model; only the fields the core reads or writes are kept.
 */
module VCpu {
  import opened Riscv

  /** The value of a `VmCpuRegisters` at one instant. */
  datatype CpuState = CpuState(
    gprs: GprFile,
    sepc: Word,
    hstatus: set<HstatusBit>,
    sstatus: set<SstatusBit>,
    vsatp: Word)

  /** `VmCpuRegisters::default()`: every register and CSR copy zero. */
  const DEFAULT_STATE: CpuState := CpuState(seq(GPR_COUNT, _ => 0), 0, {}, {}, 0)

  /** `ctx.guest_regs.gprs.reg(i)`. */
  function Reg(s: CpuState, i: nat): Word
    requires i < GPR_COUNT
  {
    s.gprs[i]
  }

  class VmCpuRegisters {
    var gprs: GprFile
    var sepc: Word
    var hstatus: set<HstatusBit>
    var sstatus: set<SstatusBit>
    var vsatp: Word

    function State(): CpuState
      reads this
    {
      CpuState(gprs, sepc, hstatus, sstatus, vsatp)
    }

    constructor ()
      ensures State() == DEFAULT_STATE
    {
      gprs := seq(GPR_COUNT, _ => 0);
      sepc := 0;
      hstatus := {};
      sstatus := {};
      vsatp := 0;
    }
  }
}

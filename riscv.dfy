/**
 * Machine-level vocabulary of the RISC-V hypervisor: the 64-bit `usize` word,
 * the general-purpose register file, the fields of an I-type CSR instruction and
 * the named status bits the hypervisor sets.
 */
module Riscv {

  /** `usize` on riscv64. */
  const WORD_MODULUS: nat := 0x1_0000_0000_0000_0000
  type Word = w: nat | w < WORD_MODULUS

  const U32_MODULUS: nat := 0x1_0000_0000
  type U32 = w: nat | w < U32_MODULUS

  /** Rust's truncating cast `w as u32`. */
  function Low32(w: nat): U32
  {
    w % U32_MODULUS
  }

  /** Width in bytes of every instruction this hypervisor steps over. */
  const INSTRUCTION_WIDTH: nat := 4

  /** The 32 general-purpose registers x0..x31, indexed by `GprIndex`. */
  const GPR_COUNT: nat := 32
  type GprFile = s: seq<Word> | |s| == GPR_COUNT witness seq(32, _ => 0)

  /** ABI names of the two argument registers the exercise uses (x10, x11). */
  const A0: nat := 10
  const A1: nat := 11

  // ---------------------------------------------------------------------------
  // I-type SYSTEM instructions (Zicsr chapter of the RISC-V Unprivileged ISA):
  //   csr[31:20] | rs1[19:15] | funct3[14:12] | rd[11:7] | opcode[6:0]

  const OPCODE_SYSTEM: nat := 0x73
  const FUNCT3_CSRRS: nat := 2
  /** mhartid, section 3.1.5 of the RISC-V Privileged Architecture. */
  const CSR_MHARTID: nat := 0xF14

  /** `csrr a1, mhartid`, i.e. `csrrs a1, mhartid, x0`: the one emulated instruction. */
  const CSRR_A1_MHARTID: U32 := 0xf14025f3

  function EncodeCsrInstr(csr: nat, rs1: nat, funct3: nat, rd: nat): (inst: U32)
    requires csr < 0x1000 && rs1 < 32 && funct3 < 8 && rd < 32
  {
    csr * 0x10_0000 + rs1 * 0x8000 + funct3 * 0x1000 + rd * 0x80 + OPCODE_SYSTEM
  }

  function OpcodeOf(inst: U32): nat { inst % 0x80 }
  function RdOf(inst: U32): nat { inst / 0x80 % 32 }
  function Funct3Of(inst: U32): nat { inst / 0x1000 % 8 }
  function Rs1Of(inst: U32): nat { inst / 0x8000 % 32 }
  function CsrOf(inst: U32): nat { inst / 0x10_0000 }

  /** Decoding an encoded CSR instruction gives back every field. */
  lemma {:induction false} DecodeEncodeCsrInstr(csr: nat, rs1: nat, funct3: nat, rd: nat)
    requires csr < 0x1000 && rs1 < 32 && funct3 < 8 && rd < 32
    ensures var inst := EncodeCsrInstr(csr, rs1, funct3, rd);
      OpcodeOf(inst) == OPCODE_SYSTEM && RdOf(inst) == rd && Funct3Of(inst) == funct3
      && Rs1Of(inst) == rs1 && CsrOf(inst) == csr
  {
    var inst := EncodeCsrInstr(csr, rs1, funct3, rd);
    var low7 := OPCODE_SYSTEM;
    var low12 := rd * 0x80 + low7;
    var low15 := funct3 * 0x1000 + low12;
    var low20 := rs1 * 0x8000 + low15;
    var above7 := (csr * 0x100 + rs1 * 8 + funct3) * 32 + rd;
    var above12 := (csr * 0x20 + rs1) * 8 + funct3;
    var above15 := csr * 32 + rs1;
    DivModOf(inst, above7, low7, 0x80);
    DivModOf(inst, above12, low12, 0x1000);
    DivModOf(inst, above15, low15, 0x8000);
    DivModOf(inst, csr, low20, 0x10_0000);
    DivModOf(above7, csr * 0x100 + rs1 * 8 + funct3, rd, 32);
    DivModOf(above12, csr * 0x20 + rs1, funct3, 8);
    DivModOf(above15, csr, rs1, 32);
  }

  /** The quotient and remainder of `q * d + r` by a field boundary `d`, for `r < d`. */
  lemma DivModOf(x: nat, q: nat, r: nat, d: nat)
    requires d == 8 || d == 32 || d == 0x80 || d == 0x1000 || d == 0x8000 || d == 0x10_0000
    requires r < d && x == q * d + r
    ensures x / d == q && x % d == r
  {
  }

  /** 0xf14025f3 is CSRRS with rd = a1, rs1 = x0 and csr = mhartid, i.e. `csrr a1, mhartid`. */
  lemma CsrrA1MhartidFields()
    ensures CSRR_A1_MHARTID == EncodeCsrInstr(CSR_MHARTID, 0, FUNCT3_CSRRS, A1)
    ensures RdOf(CSRR_A1_MHARTID) == A1 && CsrOf(CSRR_A1_MHARTID) == CSR_MHARTID
    ensures Funct3Of(CSRR_A1_MHARTID) == FUNCT3_CSRRS && Rs1Of(CSRR_A1_MHARTID) == 0
    ensures OpcodeOf(CSRR_A1_MHARTID) == OPCODE_SYSTEM
  {
    DecodeEncodeCsrInstr(CSR_MHARTID, 0, FUNCT3_CSRRS, A1);
  }

  // ---------------------------------------------------------------------------
  // Status registers as sets of named one-bit fields.  The hypervisor only sets
  // hstatus.SPV, hstatus.SPVP and sstatus.SPP; every other bit is carried through.

  datatype HstatusBit = Spv | Spvp | OtherHstatusBit(id: nat)
  datatype SstatusBit = Spp | OtherSstatusBit(id: nat)
}

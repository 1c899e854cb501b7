/**
 * The VM-exit dispatcher `vmexit_handler`: given the trap cause and the trap
 * values read from the CSRs, it either emulates the trapping instruction and
 * resumes the guest, shuts the guest down, or stops the hypervisor.
 */
module VmExit {
  import opened Riscv
  import opened VCpu
  import opened Results

  /** `scause.cause()`, reduced to the cases the handler tells apart. */
  datatype TrapCause =
    | VirtualSupervisorEnvCall
    | UserEnvCall
    | IllegalInstruction
    | InstructionGuestPageFault
    | LoadGuestPageFault
    | InstructionPageFault
    | OtherTrap(code: nat)  // any other exception, or an interrupt

  /** The result of `SbiMessage::from_regs(a_regs).ok()`: the decoder is not part of this model. */
  datatype SbiDecode = SbiReset | SbiOtherMessage | SbiUndecodable

  /** What the hypervisor reads at a trap besides the saved context. */
  datatype TrapInfo = TrapInfo(
    cause: TrapCause,
    stval: Word,        // stval: faulting address
    htinst: Word,       // htinst: transformed trapping instruction, or 0
    wordAtSepc: U32,    // the 32-bit word at guest-physical address sepc
    sbi: SbiDecode)

  /** Why the hypervisor stops (`panic!`, `assert_eq!`, `todo!` or an overflowing `+=`). */
  datatype FatalReason =
    | BadSbiMessage
    | UnsupportedSbiMessage
    | SentinelMismatch(reg: nat, found: Word, expected: Word)
    | BadInstruction(inst: Word, sepc: Word)
    | InstructionGuestPageFaultAt(gva: Word, sepc: Word)
    | InstructionPageFaultAt(addr: Word, sepc: Word)
    | UnhandledTrap(cause: TrapCause, sepc: Word, stval: Word)
    | SepcOverflow(sepc: Word)

  /** `false` (resume the guest), `true` (shut down), or no return at all. */
  datatype Outcome = Resume | Shutdown | Fatal(reason: FatalReason)

  datatype Exit = Exit(outcome: Outcome, state: CpuState)

  /** The argument pair the guest's shutdown call must carry. */
  const SHUTDOWN_A0: Word := 0x6688
  const SHUTDOWN_A1: Word := 0x1234
  /** The value given to the guest for `csrr a1, mhartid`. */
  const EMULATED_MHARTID: Word := 0x1234
  /** The value given to the guest for a load that faulted in stage 2. */
  const EMULATED_LOAD_VALUE: Word := 0x6688

  /** The two `assert_eq!`s on a0 then a1; `None` when both hold. */
  function SentinelCheck(s: CpuState): (r: Option<FatalReason>)
    ensures r.None? <==> Reg(s, A0) == SHUTDOWN_A0 && Reg(s, A1) == SHUTDOWN_A1
    ensures Reg(s, A0) != SHUTDOWN_A0 ==> r == Some(SentinelMismatch(A0, Reg(s, A0), SHUTDOWN_A0))
    ensures Reg(s, A0) == SHUTDOWN_A0 && Reg(s, A1) != SHUTDOWN_A1 ==>
      r == Some(SentinelMismatch(A1, Reg(s, A1), SHUTDOWN_A1))
  {
    if Reg(s, A0) != SHUTDOWN_A0 then Some(SentinelMismatch(A0, Reg(s, A0), SHUTDOWN_A0))
    else if Reg(s, A1) != SHUTDOWN_A1 then Some(SentinelMismatch(A1, Reg(s, A1), SHUTDOWN_A1))
    else None
  }

  /** `ctx.guest_regs.sepc += 4`, which stops on `usize` overflow. */
  function StepOver(s: CpuState): Exit
  {
    if s.sepc + INSTRUCTION_WIDTH < WORD_MODULUS then Exit(Resume, s.(sepc := s.sepc + INSTRUCTION_WIDTH))
    else Exit(Fatal(SepcOverflow(s.sepc)), s)
  }

  /** The instruction the illegal-instruction path examines: htinst, or the word at sepc when htinst is 0. */
  function TrappedInstruction(t: TrapInfo): Word
  {
    if t.htinst != 0 then t.htinst else t.wordAtSepc
  }

  /** `vmexit_handler` as a function of the saved context and the trap values. */
  function Dispatch(s: CpuState, t: TrapInfo): (e: Exit)
    ensures e.outcome.Fatal? && !e.outcome.reason.SepcOverflow? ==> e.state == s
    ensures e.state.hstatus == s.hstatus && e.state.sstatus == s.sstatus && e.state.vsatp == s.vsatp
    ensures forall i | 0 <= i < GPR_COUNT && i != A0 && i != A1 :: e.state.gprs[i] == s.gprs[i]
    ensures e.outcome.Resume? ==> e.state.sepc == s.sepc + INSTRUCTION_WIDTH
    ensures e.outcome.Resume? ==> t.cause == IllegalInstruction || t.cause == LoadGuestPageFault
    ensures e.outcome.Shutdown? ==>
      Reg(s, A0) == SHUTDOWN_A0 && Reg(s, A1) == SHUTDOWN_A1 && e.state.gprs == s.gprs
  {
    match t.cause
    case VirtualSupervisorEnvCall =>
      (match t.sbi
       case SbiUndecodable => Exit(Fatal(BadSbiMessage), s)
       case SbiOtherMessage => Exit(Fatal(UnsupportedSbiMessage), s)
       case SbiReset =>
         (match SentinelCheck(s)
          case Some(reason) => Exit(Fatal(reason), s)
          case None => Exit(Shutdown, s)))
    case UserEnvCall =>
      (match SentinelCheck(s)
       case Some(reason) => Exit(Fatal(reason), s)
       case None =>
         var stepped := StepOver(s);
         if stepped.outcome.Resume? then Exit(Shutdown, stepped.state) else stepped)
    case IllegalInstruction =>
      var inst := TrappedInstruction(t);
      if Low32(inst) == CSRR_A1_MHARTID then
        StepOver(s.(gprs := s.gprs[A1 := EMULATED_MHARTID]))
      else Exit(Fatal(BadInstruction(inst, s.sepc)), s)
    case InstructionGuestPageFault => Exit(Fatal(InstructionGuestPageFaultAt(t.stval, s.sepc)), s)
    case LoadGuestPageFault => StepOver(s.(gprs := s.gprs[A0 := EMULATED_LOAD_VALUE]))
    case InstructionPageFault => Exit(Fatal(InstructionPageFaultAt(t.stval, s.sepc)), s)
    case OtherTrap(_) => Exit(Fatal(UnhandledTrap(t.cause, s.sepc, t.stval)), s)
  }

  // ---------------------------------------------------------------------------
  // The handler's behaviour, cause by cause.

  /** A VS-mode ecall never changes the context; it shuts down exactly on a Reset message carrying the sentinel pair. */
  lemma VsEcallOutcome(s: CpuState, t: TrapInfo)
    requires t.cause == VirtualSupervisorEnvCall
    ensures Dispatch(s, t).state == s
    ensures Dispatch(s, t).outcome == Shutdown <==>
      t.sbi == SbiReset && Reg(s, A0) == SHUTDOWN_A0 && Reg(s, A1) == SHUTDOWN_A1
    ensures t.sbi == SbiUndecodable ==> Dispatch(s, t).outcome == Fatal(BadSbiMessage)
    ensures t.sbi == SbiOtherMessage ==> Dispatch(s, t).outcome == Fatal(UnsupportedSbiMessage)
    ensures !Dispatch(s, t).outcome.Resume?
  {
  }

  /** A U-mode ecall with the sentinel pair steps over the ecall and shuts down; any other pair is fatal. */
  lemma UserEcallOutcome(s: CpuState, t: TrapInfo)
    requires t.cause == UserEnvCall
    ensures Dispatch(s, t).outcome == Shutdown <==>
      Reg(s, A0) == SHUTDOWN_A0 && Reg(s, A1) == SHUTDOWN_A1 && s.sepc + INSTRUCTION_WIDTH < WORD_MODULUS
    ensures Dispatch(s, t).outcome == Shutdown ==>
      Dispatch(s, t).state == s.(sepc := s.sepc + INSTRUCTION_WIDTH)
    ensures Reg(s, A0) != SHUTDOWN_A0 ==>
      Dispatch(s, t) == Exit(Fatal(SentinelMismatch(A0, Reg(s, A0), SHUTDOWN_A0)), s)
    ensures Reg(s, A0) == SHUTDOWN_A0 && Reg(s, A1) != SHUTDOWN_A1 ==>
      Dispatch(s, t) == Exit(Fatal(SentinelMismatch(A1, Reg(s, A1), SHUTDOWN_A1)), s)
    ensures Reg(s, A0) == SHUTDOWN_A0 && Reg(s, A1) == SHUTDOWN_A1 && s.sepc + INSTRUCTION_WIDTH >= WORD_MODULUS ==>
      Dispatch(s, t) == Exit(Fatal(SepcOverflow(s.sepc)), s)
    ensures !Dispatch(s, t).outcome.Resume?
  {
  }

  /**
   * An illegal instruction is examined as htinst, or as the word at sepc when
   * htinst is 0.  When its low 32 bits are `csrr a1, mhartid` it is emulated:
   * a1 gets the emulated hart id and sepc steps over it (the overflow stop,
   * with a1 already written, when sepc + 4 does not fit); every other word is fatal.
   */
  lemma IllegalInstructionOutcome(s: CpuState, t: TrapInfo)
    requires t.cause == IllegalInstruction
    ensures var inst := if t.htinst != 0 then t.htinst else t.wordAtSepc;
      Dispatch(s, t).outcome == Resume <==> Low32(inst) == CSRR_A1_MHARTID && s.sepc + INSTRUCTION_WIDTH < WORD_MODULUS
    ensures Dispatch(s, t).outcome == Resume ==>
      Dispatch(s, t).state == s.(gprs := s.gprs[A1 := EMULATED_MHARTID], sepc := s.sepc + INSTRUCTION_WIDTH)
    ensures var inst := if t.htinst != 0 then t.htinst else t.wordAtSepc;
      Low32(inst) == CSRR_A1_MHARTID && s.sepc + INSTRUCTION_WIDTH >= WORD_MODULUS ==>
        Dispatch(s, t) == Exit(Fatal(SepcOverflow(s.sepc)), s.(gprs := s.gprs[A1 := EMULATED_MHARTID]))
    ensures var inst := if t.htinst != 0 then t.htinst else t.wordAtSepc;
      Low32(inst) != CSRR_A1_MHARTID ==> Dispatch(s, t) == Exit(Fatal(BadInstruction(inst, s.sepc)), s)
    ensures !Dispatch(s, t).outcome.Shutdown?
  {
  }

  /** The register the emulation writes is the destination register `rd` encoded in the instruction. */
  lemma EmulatedWriteGoesToRd(s: CpuState, t: TrapInfo)
    requires t.cause == IllegalInstruction && Dispatch(s, t).outcome == Resume
    ensures var rd := RdOf(Low32(TrappedInstruction(t)));
      rd < GPR_COUNT && Dispatch(s, t).state.gprs == s.gprs[rd := EMULATED_MHARTID]
  {
    CsrrA1MhartidFields();
  }

  /**
   * A load guest-page fault, whatever the faulting address, sets a0 to the
   * emulated value and steps over the load.
   */
  lemma LoadGuestPageFaultOutcome(s: CpuState, t: TrapInfo)
    requires t.cause == LoadGuestPageFault
    ensures s.sepc + INSTRUCTION_WIDTH < WORD_MODULUS ==>
      Dispatch(s, t) == Exit(Resume, s.(gprs := s.gprs[A0 := EMULATED_LOAD_VALUE], sepc := s.sepc + INSTRUCTION_WIDTH))
    ensures s.sepc + INSTRUCTION_WIDTH >= WORD_MODULUS ==>
      Dispatch(s, t) == Exit(Fatal(SepcOverflow(s.sepc)), s.(gprs := s.gprs[A0 := EMULATED_LOAD_VALUE]))
    ensures forall addr: Word :: Dispatch(s, t.(stval := addr)) == Dispatch(s, t)
  {
  }

  /** Instruction guest-page faults, instruction page faults and all other causes stop the hypervisor, reporting sepc. */
  lemma FaultsAreFatal(s: CpuState, t: TrapInfo)
    requires t.cause == InstructionGuestPageFault || t.cause == InstructionPageFault || t.cause.OtherTrap?
    ensures Dispatch(s, t).state == s
    ensures Dispatch(s, t).outcome == Fatal(
      match t.cause
      case InstructionGuestPageFault => InstructionGuestPageFaultAt(t.stval, s.sepc)
      case InstructionPageFault => InstructionPageFaultAt(t.stval, s.sepc)
      case _ => UnhandledTrap(t.cause, s.sepc, t.stval))
  {
  }

  /** The outcome of a trap depends only on a0, a1 and sepc among the saved registers. */
  lemma OutcomeDependsOnArgumentsAndSepc(s: CpuState, s': CpuState, t: TrapInfo)
    requires Reg(s, A0) == Reg(s', A0) && Reg(s, A1) == Reg(s', A1) && s.sepc == s'.sepc
    ensures Dispatch(s, t).outcome == Dispatch(s', t).outcome
  {
  }

  // ---------------------------------------------------------------------------

  /**
   * `vmexit_handler(ctx)`: updates the context in place and returns the outcome
   * (`Resume` for `false`, `Shutdown` for `true`; `Fatal` where the source panics).
   */
  method VmexitHandler(ctx: VmCpuRegisters, t: TrapInfo) returns (o: Outcome)
    modifies ctx
    ensures Exit(o, ctx.State()) == Dispatch(old(ctx.State()), t)
  {
    match t.cause {
      case VirtualSupervisorEnvCall =>
        match t.sbi {
          case SbiUndecodable =>
            return Fatal(BadSbiMessage);
          case SbiOtherMessage =>
            return Fatal(UnsupportedSbiMessage);
          case SbiReset =>
            var a0, a1 := ctx.gprs[A0], ctx.gprs[A1];
            if a0 != SHUTDOWN_A0 {
              return Fatal(SentinelMismatch(A0, a0, SHUTDOWN_A0));
            }
            if a1 != SHUTDOWN_A1 {
              return Fatal(SentinelMismatch(A1, a1, SHUTDOWN_A1));
            }
            return Shutdown;
        }
      case UserEnvCall =>
        var a0, a1 := ctx.gprs[A0], ctx.gprs[A1];
        if a0 != SHUTDOWN_A0 {
          return Fatal(SentinelMismatch(A0, a0, SHUTDOWN_A0));
        }
        if a1 != SHUTDOWN_A1 {
          return Fatal(SentinelMismatch(A1, a1, SHUTDOWN_A1));
        }
        if ctx.sepc + INSTRUCTION_WIDTH >= WORD_MODULUS {
          return Fatal(SepcOverflow(ctx.sepc));
        }
        ctx.sepc := ctx.sepc + INSTRUCTION_WIDTH;
        return Shutdown;
      case IllegalInstruction =>
        var inst: Word := t.htinst;
        if inst == 0 {
          inst := t.wordAtSepc;
        }
        if Low32(inst) == CSRR_A1_MHARTID {
          ctx.gprs := ctx.gprs[A1 := EMULATED_MHARTID];
          if ctx.sepc + INSTRUCTION_WIDTH >= WORD_MODULUS {
            return Fatal(SepcOverflow(ctx.sepc));
          }
          ctx.sepc := ctx.sepc + INSTRUCTION_WIDTH;
          return Resume;
        }
        return Fatal(BadInstruction(inst, ctx.sepc));
      case InstructionGuestPageFault =>
        return Fatal(InstructionGuestPageFaultAt(t.stval, ctx.sepc));
      case LoadGuestPageFault =>
        ctx.gprs := ctx.gprs[A0 := EMULATED_LOAD_VALUE];
        if ctx.sepc + INSTRUCTION_WIDTH >= WORD_MODULUS {
          return Fatal(SepcOverflow(ctx.sepc));
        }
        ctx.sepc := ctx.sepc + INSTRUCTION_WIDTH;
        return Resume;
      case InstructionPageFault =>
        return Fatal(InstructionPageFaultAt(t.stval, ctx.sepc));
      case OtherTrap(_) =>
        return Fatal(UnhandledTrap(t.cause, ctx.sepc, t.stval));
    }
  }
}

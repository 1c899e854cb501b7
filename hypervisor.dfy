/**
 * The driver in main.rs: the stage-2 root register `hgatp`, the identity
 * mappings the guest needs while its own translation is off, the initial guest
 * context, and the loop that re-enters the guest until it shuts down.
 */
module Hypervisor {
  import opened Results
  import opened Riscv
  import opened VCpu
  import opened VmExit
  import opened Mm
  import opened Loader

  // ---------------------------------------------------------------------------
  // hgatp (Hypervisor Extension chapter of the RISC-V Privileged Architecture,
  // version 20211203): MODE in bits 63:60, VMID in bits 57:44, PPN in bits 43:0.

  /** MODE value selecting Sv39x4 stage-2 translation. */
  const HGATP_MODE_SV39X4: bv64 := 8

  /**
   * `8usize << 60 | usize::from(ept_root) >> 12`, as computed in `prepare_vm_pgtable`:
   * for every root the mode field reads Sv39x4, the low 60 bits are `root >> 12`,
   * and the two operands of `|` share no bit.
   */
  function Hgatp(root: bv64): (h: bv64)
    ensures HgatpMode(h) == HGATP_MODE_SV39X4
    ensures h & 0x0FFF_FFFF_FFFF_FFFF == root >> 12
    ensures (HGATP_MODE_SV39X4 << 60) & (root >> 12) == 0
  {
    (HGATP_MODE_SV39X4 << 60) | (root >> 12)
  }

  function HgatpMode(h: bv64): bv64 { h >> 60 }
  function HgatpVmid(h: bv64): bv64 { (h >> 44) & 0x3FFF }
  function HgatpPpn(h: bv64): bv64 { h & 0xFFF_FFFF_FFFF }
  /** The two reserved bits 59:58. */
  function HgatpReserved(h: bv64): bv64 { (h >> 58) & 3 }

  /** A root below 2^56 (the Sv39x4 physical-address width) fills exactly the PPN field. */
  lemma HgatpFields(root: bv64)
    requires root < 1 << 56
    ensures HgatpPpn(Hgatp(root)) == root >> 12
    ensures HgatpVmid(Hgatp(root)) == 0 && HgatpReserved(Hgatp(root)) == 0
  {
  }

  /**
   * The root the hardware walks: for Sv39x4 the root table is 16 KiB and the two
   * low PPN bits of hgatp read as zero, so the walk starts at the 16 KiB boundary
   * at or below the PPN written.
   */
  function EffectiveStage2Root(h: bv64): bv64
  {
    (HgatpPpn(h) & !3) << 12
  }

  /** As written: a page-aligned root that is not 16 KiB aligned is silently replaced by a different page. */
  lemma HgatpRedirectsUnalignedRoot(root: bv64)
    requires root < 1 << 56 && root & 0xFFF == 0 && root & 0x3FFF != 0
    ensures EffectiveStage2Root(Hgatp(root)) != root
    ensures EffectiveStage2Root(Hgatp(root)) == root & !0x3FFF
  {
  }

  /** A concrete instance: a root page at 0x8020_1000 is walked at 0x8020_0000. */
  lemma HgatpRedirectExample()
    ensures EffectiveStage2Root(Hgatp(0x8020_1000)) == 0x8020_0000
  {
    HgatpRedirectsUnalignedRoot(0x8020_1000);
  }

  /**
   * Corrected `prepare_vm_pgtable`: refuses a root the Sv39x4 walk cannot start
   * from (not 16 KiB aligned, or beyond 56 physical-address bits) instead of
   * programming hgatp with it.
   */
  function CheckedHgatp(root: bv64): (r: Result<bv64, SetupFailure>)
    ensures r.Err? <==> root & 0x3FFF != 0 || root >= 1 << 56
    ensures r.Ok? ==> r.value == Hgatp(root) && EffectiveStage2Root(r.value) == root
    ensures r.Ok? ==> HgatpMode(r.value) == HGATP_MODE_SV39X4 && HgatpVmid(r.value) == 0
  {
    if root & 0x3FFF != 0 || root >= 1 << 56 then Err(Stage2RootUnusable(root))
    else Ok(Hgatp(root))
  }

  // ---------------------------------------------------------------------------
  // Identity mappings (GPA == HPA at virtual address GPA) for the stage-2 walk.

  datatype Region = EntryPage | PageTableRoot

  /** `PAGE_SIZE_4K` for the entry page, `PAGE_SIZE_4K * 256` for the page-table root. */
  function IdentitySize(region: Region): nat
  {
    match region
    case EntryPage => PAGE_SIZE_4K
    case PageTableRoot => PAGE_SIZE_4K * 256
  }

  /**
   * Whether a failed `map_linear` is let through: only `AlreadyExists`, and for
   * the entry page only when the GPA was already mapped somewhere else.
   */
  function Tolerated(region: Region, alreadyMapped: bool, e: AxError): (r: bool)
    ensures region == EntryPage && !alreadyMapped ==> !r
    ensures region == EntryPage && alreadyMapped ==> (r <==> e == AlreadyExists)
    ensures region == PageTableRoot ==> (r <==> e == AlreadyExists)
  {
    e == AlreadyExists && (region == PageTableRoot || alreadyMapped)
  }

  datatype SetupFailure =
    | EntryUnmapped                               // "Cannot find entry address in page table"
    | IdentityMapFailed(region: Region, error: AxError)
    | Stage2RootUnusable(root: bv64)

  /** One of the two `match uspace.page_table().query(gpa)` blocks of `main`. */
  function IdentityMap(m: Mappings, gpa: nat, region: Region): (r: Result<Mappings, SetupFailure>)
    ensures Query(m.pt, gpa) == Ok(gpa) ==> r == Ok(m)
    ensures r.Ok? ==>
      r.value == m
      || (MapLinearSpec(m, gpa, gpa, IdentitySize(region), RWXU).Ok?
          && r.value == MapLinearSpec(m, gpa, gpa, IdentitySize(region), RWXU).value)
    ensures Query(m.pt, gpa) != Ok(gpa) && MapLinearSpec(m, gpa, gpa, IdentitySize(region), RWXU).Ok? ==>
      r == Ok(MapLinearSpec(m, gpa, gpa, IdentitySize(region), RWXU).value)
    ensures r.Err? <==>
      Query(m.pt, gpa) != Ok(gpa)
      && MapLinearSpec(m, gpa, gpa, IdentitySize(region), RWXU).Err?
      && !Tolerated(region, Query(m.pt, gpa).Ok?, MapLinearSpec(m, gpa, gpa, IdentitySize(region), RWXU).error)
  {
    var q := Query(m.pt, gpa);
    if q == Ok(gpa) then Ok(m)
    else
      match MapLinearSpec(m, gpa, gpa, IdentitySize(region), RWXU)
      case Ok(m') => Ok(m')
      case Err(e) => if Tolerated(region, q.Ok?, e) then Ok(m) else Err(IdentityMapFailed(region, e))
  }

  /** When the GPA was not mapped at all, success means the whole region now translates to itself. */
  lemma UnmappedRegionBecomesIdentity(m: Mappings, gpa: nat, region: Region)
    requires Query(m.pt, gpa).Err?
    requires IdentityMap(m, gpa, region).Ok?
    requires region == EntryPage || MapLinearSpec(m, gpa, gpa, IdentitySize(region), RWXU).Ok?
    ensures forall v | gpa <= v < gpa + IdentitySize(region) :: Query(IdentityMap(m, gpa, region).value.pt, v) == Ok(v)
  {
  }

  /**
   * When the GPA is already mapped to another address, `map_linear` over it can
   * only fail, so the block never installs the identity mapping: it either
   * tolerates `AlreadyExists` and leaves the address space as it was, or stops.
   */
  lemma {:induction false} MappedElsewhereInstallsNothing(m: Mappings, gpa: nat, region: Region)
    requires Covered(m) && IsAligned4K(gpa)
    requires Query(m.pt, gpa).Ok? && Query(m.pt, gpa) != Ok(gpa)
    ensures IdentityMap(m, gpa, region).Ok? ==> IdentityMap(m, gpa, region).value == m
    ensures IdentityMap(m, gpa, region).Ok? ==> Query(IdentityMap(m, gpa, region).value.pt, gpa) != Ok(gpa)
  {
    MappedAddressOverlaps(m, gpa, IdentitySize(region));
  }

  /** The setup steps of `main` between loading and `prepare_vm_pgtable`: the result is the address space and the entry GPA. */
  function SetupIdentity(m: Mappings, entry: nat, root: nat): (r: Result<(Mappings, nat), SetupFailure>)
    ensures r.Ok? ==> Query(m.pt, entry) == Ok(r.value.1)
    ensures Query(m.pt, entry).Err? ==> r == Err(EntryUnmapped)
    ensures r.Ok? <==>
      Query(m.pt, entry).Ok?
      && IdentityMap(m, Query(m.pt, entry).value, EntryPage).Ok?
      && IdentityMap(IdentityMap(m, Query(m.pt, entry).value, EntryPage).value, root, PageTableRoot).Ok?
    ensures r.Ok? ==>
      r.value.0 == IdentityMap(IdentityMap(m, r.value.1, EntryPage).value, root, PageTableRoot).value
  {
    match Query(m.pt, entry)
    case Err(_) => Err(EntryUnmapped)
    case Ok(gpa) =>
      match IdentityMap(m, gpa, EntryPage)
      case Err(f) => Err(f)
      case Ok(m1) =>
        match IdentityMap(m1, root, PageTableRoot)
        case Err(f) => Err(f)
        case Ok(m2) => Ok((m2, gpa))
  }

  /**
   * When the entry's GPA was not yet mapped, a successful setup leaves it
   * translating to itself, which is what the identity block exists for.
   */
  lemma {:induction false} SetupMapsEntryToItself(m: Mappings, entry: nat, root: nat)
    requires SetupIdentity(m, entry, root).Ok?
    requires Query(m.pt, SetupIdentity(m, entry, root).value.1).Err?
    ensures var r := SetupIdentity(m, entry, root).value;
      Query(r.0.pt, r.1) == Ok(r.1)
  {
    var gpa := SetupIdentity(m, entry, root).value.1;
    UnmappedRegionBecomesIdentity(m, gpa, EntryPage);
    var m1 := IdentityMap(m, gpa, EntryPage).value;
    assert Query(m1.pt, gpa + 0) == Ok(gpa);
  }

  // ---------------------------------------------------------------------------
  // Guest context.

  /**
   * `prepare_guest_context`: hstatus and sstatus are the values read from the
   * CSRs with SPV, SPVP and SPP set; the guest starts at `entry` with VS-stage
   * translation off (vsatp = 0).  The registers are untouched.
   */
  function PreparedContext(s: CpuState, entry: Word, hstatusCsr: set<HstatusBit>, sstatusCsr: set<SstatusBit>): (r: CpuState)
    ensures r.sepc == entry && r.vsatp == 0 && r.gprs == s.gprs
    ensures Spv in r.hstatus && Spvp in r.hstatus && Spp in r.sstatus
    ensures forall b | b != Spv && b != Spvp :: b in r.hstatus <==> b in hstatusCsr
    ensures forall b | b != Spp :: b in r.sstatus <==> b in sstatusCsr
  {
    s.(hstatus := hstatusCsr + {Spv, Spvp}, sstatus := sstatusCsr + {Spp}, sepc := entry, vsatp := 0)
  }

  /** Returns the hstatus value also written to the hstatus CSR. */
  method PrepareGuestContext(ctx: VmCpuRegisters, entry: Word, hstatusCsr: set<HstatusBit>, sstatusCsr: set<SstatusBit>)
    returns (hstatusWritten: set<HstatusBit>)
    modifies ctx
    ensures ctx.State() == PreparedContext(old(ctx.State()), entry, hstatusCsr, sstatusCsr)
    ensures hstatusWritten == ctx.hstatus
  {
    var hstatus := hstatusCsr;
    hstatus := hstatus + {Spv};
    hstatus := hstatus + {Spvp};
    hstatusWritten := hstatus;
    ctx.hstatus := hstatus;
    var sstatus := sstatusCsr;
    sstatus := sstatus + {Spp};
    ctx.sstatus := sstatus;
    ctx.sepc := entry;
    ctx.vsatp := 0;
  }

  // ---------------------------------------------------------------------------
  // The run loop `while !run_guest(&mut ctx) {}`.

  /**
   * One guest run as the world switch `_run_guest` reports it: the registers and
   * sepc it saved at the trap, and the trap values read afterwards.
   */
  datatype TrapEvent = TrapEvent(gprs: GprFile, sepc: Word, info: TrapInfo)

  /** The context after `_run_guest` returns. */
  function Enter(s: CpuState, ev: TrapEvent): CpuState
  {
    s.(gprs := ev.gprs, sepc := ev.sepc)
  }

  /** How the handler answers an event; the context before entry does not matter (see StepOutcomeAnyState). */
  function StepOutcome(ev: TrapEvent): Outcome
  {
    Dispatch(CpuState(ev.gprs, ev.sepc, {}, {}, 0), ev.info).outcome
  }

  lemma StepOutcomeAnyState(s: CpuState, ev: TrapEvent)
    ensures Dispatch(Enter(s, ev), ev.info).outcome == StepOutcome(ev)
  {
    OutcomeDependsOnArgumentsAndSepc(Enter(s, ev), CpuState(ev.gprs, ev.sepc, {}, {}, 0), ev.info);
  }

  /**
   * `outcome` is the first non-`Resume` answer, or `Resume` when the events ran
   * out with the guest still running; `entries` counts guest entries.
   */
  datatype RunResult = RunResult(outcome: Outcome, state: CpuState, entries: nat)

  function Run(s: CpuState, evs: seq<TrapEvent>): (r: RunResult)
    ensures r.entries <= |evs|
    ensures evs != [] <==> 1 <= r.entries
    ensures r.outcome.Resume? ==> r.entries == |evs|
    decreases |evs|
  {
    if evs == [] then RunResult(Resume, s, 0)
    else
      var e := Dispatch(Enter(s, evs[0]), evs[0].info);
      if e.outcome.Resume? then
        var rest := Run(e.state, evs[1..]);
        RunResult(rest.outcome, rest.state, rest.entries + 1)
      else RunResult(e.outcome, e.state, 1)
  }

  /**
   * The loop enters the guest once per event up to and including the first event
   * the handler does not resume from, and no further; it ends with that answer.
   */
  lemma {:induction false} RunStopsAtFirstExit(s: CpuState, evs: seq<TrapEvent>)
    ensures var r := Run(s, evs);
      r.entries <= |evs|
      && (forall i | 0 <= i < |evs| && i + 1 < r.entries :: StepOutcome(evs[i]) == Resume)
      && (r.outcome.Resume? ==> r.entries == |evs| && forall i | 0 <= i < |evs| :: StepOutcome(evs[i]) == Resume)
      && (!r.outcome.Resume? ==> 1 <= r.entries && StepOutcome(evs[r.entries - 1]) == r.outcome)
    decreases |evs|
  {
    if evs != [] {
      StepOutcomeAnyState(s, evs[0]);
      var e := Dispatch(Enter(s, evs[0]), evs[0].info);
      if e.outcome.Resume? {
        RunStopsAtFirstExit(e.state, evs[1..]);
        var rest := Run(e.state, evs[1..]);
        forall i | 0 <= i < |evs| && i + 1 < rest.entries + 1 ensures StepOutcome(evs[i]) == Resume {
          if i > 0 {
            assert evs[i] == evs[1..][i - 1];
          }
        }
        if rest.outcome.Resume? {
          forall i | 0 <= i < |evs| ensures StepOutcome(evs[i]) == Resume {
            if i > 0 {
              assert evs[i] == evs[1..][i - 1];
            }
          }
        } else {
          assert evs[rest.entries] == evs[1..][rest.entries - 1];
        }
      }
    }
  }

  /** The guest is shut down exactly when some event asks for it and every earlier one is resumed. */
  lemma RunShutsDownIff(s: CpuState, evs: seq<TrapEvent>)
    ensures Run(s, evs).outcome == Shutdown <==>
      exists k | 0 <= k < |evs| :: StepOutcome(evs[k]) == Shutdown && forall i | 0 <= i < k :: StepOutcome(evs[i]) == Resume
  {
    RunStopsAtFirstExit(s, evs);
    var r := Run(s, evs);
    if r.outcome == Shutdown {
      assert StepOutcome(evs[r.entries - 1]) == Shutdown;
    }
  }

  /** `_run_guest(ctx)`: the world switch saves the guest's registers and sepc into the context. */
  method RunGuestOnce(ctx: VmCpuRegisters, ev: TrapEvent)
    modifies ctx
    ensures ctx.State() == Enter(old(ctx.State()), ev)
  {
    ctx.gprs := ev.gprs;
    ctx.sepc := ev.sepc;
  }

  /** `while !run_guest(&mut ctx) {}` over a finite run of the guest. */
  method RunGuestLoop(ctx: VmCpuRegisters, evs: seq<TrapEvent>) returns (o: Outcome, entries: nat)
    modifies ctx
    ensures RunResult(o, ctx.State(), entries) == Run(old(ctx.State()), evs)
  {
    ghost var s0 := ctx.State();
    o, entries := Resume, 0;
    while entries < |evs|
      invariant entries <= |evs|
      invariant var rest := Run(ctx.State(), evs[entries..]);
        Run(s0, evs) == RunResult(rest.outcome, rest.state, rest.entries + entries)
      decreases |evs| - entries
    {
      ghost var before := ctx.State();
      RunGuestOnce(ctx, evs[entries]);
      o := VmexitHandler(ctx, evs[entries].info);
      assert evs[entries..][1..] == evs[entries + 1..];
      entries := entries + 1;
      if !o.Resume? {
        return;
      }
    }
    o := Resume;
  }

  // ---------------------------------------------------------------------------
  // `main`.

  /** One identity-mapping block of `main`, on the address space in place. */
  method IdentityMapInPlace(uspace: AddrSpace, gpa: nat, region: Region) returns (r: Result<(), SetupFailure>)
    modifies uspace
    ensures var spec := IdentityMap(old(uspace.View()), gpa, region);
      (r.Ok? <==> spec.Ok?) && (spec.Ok? ==> uspace.View() == spec.value) && (spec.Err? ==> r == Err(spec.error))
  {
    var q := uspace.QueryVa(gpa);
    if q == Ok(gpa) {
      return Ok(());
    }
    var mapped := uspace.MapLinear(gpa, gpa, IdentitySize(region), RWXU);
    if mapped.Ok? {
      return Ok(());
    }
    if Tolerated(region, q.Ok?, mapped.error) {
      return Ok(());
    }
    return Err(IdentityMapFailed(region, mapped.error));
  }

  /** How `main` ends; every end but `StillRunning` is a panic in the source. */
  datatype HypervisorEnd =
    | LoadFailed(load: LoadOutcome)     // "Cannot load app!" or a panic inside the loader
    | SetupPanicked(failure: SetupFailure)
    | GuestPanicked(reason: FatalReason)
    | HypervisorOk                      // the guest shut down: "Hypervisor ok!"
    | StillRunning                      // the finite run of events ended with the guest resumed

  function Finish(o: Outcome): HypervisorEnd
  {
    match o
    case Resume => StillRunning
    case Shutdown => HypervisorOk
    case Fatal(reason) => GuestPanicked(reason)
  }

  /** `main`'s entry query and its two identity-mapping blocks, on the address space in place; the result is the entry GPA. */
  method SetupAddressSpace(uspace: AddrSpace, entry: nat) returns (r: Result<nat, SetupFailure>)
    modifies uspace
    ensures var setup := SetupIdentity(old(uspace.View()), entry, uspace.root);
      (r.Ok? <==> setup.Ok?)
      && (setup.Ok? ==> uspace.View() == setup.value.0 && r.value == setup.value.1)
      && (setup.Err? ==> r == Err(setup.error))
  {
    ghost var m0 := uspace.View();
    var q := uspace.QueryVa(entry);
    if q.Err? {
      return Err(EntryUnmapped);
    }
    var entryGpa := q.value;
    var step := IdentityMapInPlace(uspace, entryGpa, EntryPage);
    if step.Err? {
      return Err(step.error);
    }
    ghost var m1 := uspace.View();
    assert IdentityMap(m0, entryGpa, EntryPage) == Ok(m1);
    step := IdentityMapInPlace(uspace, uspace.root, PageTableRoot);
    if step.Err? {
      return Err(step.error);
    }
    assert IdentityMap(m1, uspace.root, PageTableRoot) == Ok(uspace.View());
    return Ok(entryGpa);
  }

  /**
   * What the part of `main` after loading produces from the address space `m`
   * and the freshly constructed context `s0`:
   * a setup failure panics with its reason; otherwise the identity mappings are
   * in place, a root the walk cannot use panics, and a usable one is written to
   * hgatp and the guest runs from the prepared context until its first exit.
   */
  ghost predicate GuestStarted(s0: CpuState, m: Mappings, entry: nat, root: nat, hstatusCsr: set<HstatusBit>, sstatusCsr: set<SstatusBit>,
                               evs: seq<TrapEvent>, end: HypervisorEnd, hgatp: bv64, after: Mappings, state: CpuState, entries: nat)
    requires root < WORD_MODULUS
    requires Query(m.pt, entry).Ok? ==> Query(m.pt, entry).value < WORD_MODULUS
  {
    var setup := SetupIdentity(m, entry, root);
    (setup.Err? ==> end == SetupPanicked(setup.error))
    && (setup.Ok? ==> after == setup.value.0)
    && (setup.Ok? && CheckedHgatp(root as bv64).Err? ==> end == SetupPanicked(CheckedHgatp(root as bv64).error))
    && (setup.Ok? && CheckedHgatp(root as bv64).Ok? ==>
          hgatp == Hgatp(root as bv64)
          && var run := Run(PreparedContext(s0, setup.value.1, hstatusCsr, sstatusCsr), evs);
             end == Finish(run.outcome) && state == run.state && entries == run.entries)
  }

  /**
   * `main` from the entry query on: find the entry's GPA, add the two identity
   * mappings, program hgatp (with the corrected root check), prepare the
   * context and run the guest through `evs`.  `hstatusCsr` and `sstatusCsr`
   * are the CSR values `prepare_guest_context` reads.
   */
  method StartGuest(uspace: AddrSpace, entry: nat, hstatusCsr: set<HstatusBit>, sstatusCsr: set<SstatusBit>, evs: seq<TrapEvent>)
    returns (end: HypervisorEnd, hgatp: bv64, ctx: VmCpuRegisters, entries: nat)
    requires uspace.root < WORD_MODULUS
    requires uspace.QueryVa(entry).Ok? ==> uspace.QueryVa(entry).value < WORD_MODULUS
    modifies uspace
    ensures fresh(ctx)
    ensures GuestStarted(DEFAULT_STATE, old(uspace.View()), entry, uspace.root, hstatusCsr, sstatusCsr, evs,
                         end, hgatp, uspace.View(), ctx.State(), entries)
    ensures end == HypervisorOk <==>
      SetupIdentity(old(uspace.View()), entry, uspace.root).Ok? && CheckedHgatp(uspace.root as bv64).Ok?
      && exists k | 0 <= k < |evs| :: StepOutcome(evs[k]) == Shutdown && forall i | 0 <= i < k :: StepOutcome(evs[i]) == Resume
  {
    ctx := new VmCpuRegisters();
    hgatp, entries := 0, 0;
    var setup := SetupAddressSpace(uspace, entry);
    if setup.Err? {
      return SetupPanicked(setup.error), hgatp, ctx, entries;
    }
    var entryGpa := setup.value;

    var checked := CheckedHgatp(uspace.root as bv64);
    if checked.Err? {
      return SetupPanicked(checked.error), hgatp, ctx, entries;
    }
    hgatp := checked.value;

    var _ := PrepareGuestContext(ctx, entryGpa, hstatusCsr, sstatusCsr);
    var o;
    o, entries := RunGuestLoop(ctx, evs);
    RunShutsDownIff(PreparedContext(DEFAULT_STATE, entryGpa, hstatusCsr, sstatusCsr), evs);
    return Finish(o), hgatp, ctx, entries;
  }

  /**
   * `main` once the empty address space exists: `load_vm_image`, whose failure
   * panics, then the rest as in StartGuest.  `loaded` is the address space right
   * after loading; frames handed out are physical addresses a `usize` holds.
   */
  method RunHypervisor(file: Result<seq<Byte>, IoError>, uspace: AddrSpace, ram: array<Byte>, vmEntry: nat,
                       frames: seq<nat>, hstatusCsr: set<HstatusBit>, sstatusCsr: set<SstatusBit>, evs: seq<TrapEvent>)
    returns (end: HypervisorEnd, hgatp: bv64, ctx: VmCpuRegisters, entries: nat, ghost loaded: Mappings)
    requires uspace.root < WORD_MODULUS
    requires forall f | f in frames :: f * PAGE_SIZE_4K < WORD_MODULUS
    requires forall i, j | 0 <= i < j < |frames| :: frames[i] != frames[j]
    modifies uspace, ram
    ensures fresh(ctx)
    ensures file.Err? ==> end == LoadFailed(IoFailed(file.error))
    ensures !end.LoadFailed? ==>
      file.Ok? && var mapped := MapAllocSpec(old(uspace.View()), vmEntry, AlignUp4K(|file.value|), RWXU, true, frames);
      mapped.Ok? && loaded == mapped.value && ImageVisible(loaded, ram[..], vmEntry, file.value, AlignUp4K(|file.value|))
    ensures !end.LoadFailed? <==> ImageLoads(file, old(uspace.View()), vmEntry, frames, ram.Length)
    ensures end.LoadFailed? ==> !end.load.Loaded? && !(end.load.Panicked? && end.load.reason.EntryNotMapped?)
    ensures end.LoadFailed? && end.load.Panicked? && end.load.reason.SizeOverflow? <==>
      file.Ok? && |file.value| + PAGE_SIZE_4K >= WORD_MODULUS
    ensures end.LoadFailed? && end.load.Panicked? && end.load.reason.MapAllocFailed? <==>
      file.Ok? && |file.value| + PAGE_SIZE_4K < WORD_MODULUS
      && MapAllocSpec(old(uspace.View()), vmEntry, AlignUp4K(|file.value|), RWXU, true, frames).Err?
    ensures !end.LoadFailed? ==>
      forall a | 0 <= a < ram.Length && !InFrames(a, frames, AlignUp4K(|file.value|) / PAGE_SIZE_4K) :: ram[a] == old(ram[a])
    ensures !end.LoadFailed? ==>
      0 < |frames| && frames[0] * PAGE_SIZE_4K < WORD_MODULUS && Query(loaded.pt, vmEntry) == Ok(frames[0] * PAGE_SIZE_4K)
    ensures !end.LoadFailed? ==>
      GuestStarted(DEFAULT_STATE, loaded, vmEntry, uspace.root, hstatusCsr, sstatusCsr, evs, end, hgatp, uspace.View(), ctx.State(), entries)
    ensures !end.LoadFailed? && Covered(old(uspace.View())) ==> Covered(loaded)
    ensures end == HypervisorOk <==>
      ImageLoads(file, old(uspace.View()), vmEntry, frames, ram.Length) && SetupIdentity(loaded, vmEntry, uspace.root).Ok? && CheckedHgatp(uspace.root as bv64).Ok?
      && exists k | 0 <= k < |evs| :: StepOutcome(evs[k]) == Shutdown && forall i | 0 <= i < k :: StepOutcome(evs[i]) == Resume
  {
    hgatp, entries, loaded := 0, 0, uspace.View();
    var load := LoadVmImagePaged(file, uspace, ram, vmEntry, frames);
    if load != Loaded {
      ctx := new VmCpuRegisters();
      return LoadFailed(load), hgatp, ctx, entries, loaded;
    }
    loaded := uspace.View();
    assert frames[0] in frames;
    end, hgatp, ctx, entries := StartGuest(uspace, vmEntry, hstatusCsr, sstatusCsr, evs);
  }
}

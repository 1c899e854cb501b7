# simple_hv: a model of the RISC-V exercise hypervisor

This project models `arceos/exercises/simple_hv` in Dafny. That is a single-vCPU hypervisor
for RISC-V with the H extension. It:

- loads a flat guest image into a fresh address space (`load_vm_image`);
- finds the guest-physical address of the entry point;
- adds identity (GPA == HPA) mappings for the entry page and the page-table root;
- programs `hgatp` for Sv39x4 stage-2 translation;
- prepares the guest context with VS-stage translation off;
- re-enters the guest until the VM-exit handler reports a shutdown.

The handler emulates two guest actions:

- `csrr a1, mhartid`, which yields 0x1234;
- a load that faults in stage 2, which yields 0x6688 in a0.

It accepts a shutdown request (SBI Reset from VS-mode, or an ecall from U-mode) only when a0 and a1 hold the pair 0x6688 / 0x1234. Everything else stops the hypervisor.

Modules, one per file:

- `Results` (results.dfy): `Option` and `Result`.
- `Riscv` (riscv.dfy):
  - the 64-bit `usize` word and `as u32` truncation;
  - the register file, with a0 and a1;
  - the fields of a Zicsr CSR instruction;
  - the named hstatus/sstatus bits.
- `VCpu` (vcpu.dfy): the saved guest state, as the value `CpuState` and as the mutable `VmCpuRegisters` that the handler updates in place.
- `VmExit` (vmexit.dfy):
  - `Dispatch`, the handler as a function of the saved state and the trap values;
  - the imperative `VmexitHandler`, proved equal to it;
  - one lemma per trap cause.
- `Mm` (mm.dfy): a reference semantics for the `axmm` address space the hypervisor drives:
  - areas and a page table keyed by virtual page;
  - `query`, `map_linear`, `map_alloc` and their argument checks;
  - the class `AddrSpace`, updated in place.
- `Loader` (loader.dfy): `load_vm_image`, with
  - page rounding;
  - zero-fill and copy into a physical-memory array;
  - what the guest reads through the mapping afterwards.
- `Hypervisor` (hypervisor.dfy):
  - the `hgatp` encoding;
  - the identity-mapping case table;
  - `prepare_guest_context`;
  - the run loop;
  - `main` from the loader call onwards.

Where the code does more or less than its comments suggest, the model follows the code:

- A load guest-page fault is emulated for every faulting address (main.rs:243-255). The comment at main.rs:247-249 names only the guest's `ld a0, 64(zero)`, but neither the address nor the instruction is checked.
- The two identity blocks tolerate different errors. For the entry page, `AlreadyExists` is let through only when the GPA is already mapped elsewhere (main.rs:81-89); when the GPA is unmapped, every `map_linear` error panics (main.rs:91-96). For the page-table root, `AlreadyExists` is let through in both arms (main.rs:110-130), as the comments at main.rs:114-115 and 127 say.
- `load_vm_image` returns `io::Result<()>` and uses `VM_ENTRY` (loader.rs:7, 9), while `main` uses its result as the entry address (main.rs:40-43). The model passes the entry address to both as the same parameter `vmEntry`.

## Model

| member | source | states |
|---|---|---|
| Riscv.DecodeEncodeCsrInstr | arceos/exercises/simple_hv/src/main.rs:225-226 | decoding an I-type SYSTEM instruction gives back the opcode, rd, funct3, rs1 and csr fields it was encoded from |
| Riscv.CsrrA1MhartidFields | arceos/exercises/simple_hv/src/main.rs:225-226 | 0xf14025f3 is exactly CSRRS with rd = a1, rs1 = x0 and csr = mhartid (0xF14), i.e. `csrr a1, mhartid` |
| VCpu.VmCpuRegisters.constructor | arceos/exercises/simple_hv/src/main.rs:46 | `VmCpuRegisters::default()`: all registers, sepc, the status copies and vsatp are zero |
| VmExit.SentinelCheck | arceos/exercises/simple_hv/src/main.rs:180-184 | the shutdown check passes exactly when a0 == 0x6688 and a1 == 0x1234; a wrong a0 is reported (with its value) before a1 is looked at, and a wrong a1 only when a0 is right |
| VmExit.Dispatch | arceos/exercises/simple_hv/src/main.rs:169-278 | the handler: <br>- never touches hstatus, sstatus, vsatp or any register other than a0 and a1; <br>- leaves the state untouched on every fatal exit except the sepc overflow; <br>- resumes only after an illegal instruction or a load guest-page fault, and then sepc has advanced by 4; <br>- shuts down only when the sentinel pair holds, with the registers unchanged |
| VmExit.VsEcallOutcome | arceos/exercises/simple_hv/src/main.rs:174-192 | a VS-mode ecall leaves the context untouched; it shuts down iff the message is Reset and a0/a1 hold the sentinel pair; an undecodable or non-Reset message is fatal; it never resumes |
| VmExit.UserEcallOutcome | arceos/exercises/simple_hv/src/main.rs:194-205 | a U-mode ecall shuts down iff the sentinel pair holds and sepc + 4 fits, with only sepc advanced by 4; a wrong a0, else a wrong a1, is the fatal mismatch for that register; with the pair right but sepc + 4 overflowing it is the overflow stop with nothing written; it never resumes |
| VmExit.IllegalInstructionOutcome | arceos/exercises/simple_hv/src/main.rs:206-233 | the examined word is htinst when that is non-zero, else the word at guest address sepc; the guest resumes iff its low 32 bits are 0xf14025f3 and sepc + 4 fits, with exactly a1 := 0x1234 and sepc += 4; when sepc + 4 overflows it is the overflow stop with only a1 written; any other word is fatal with the context untouched; it never shuts down |
| VmExit.EmulatedWriteGoesToRd | arceos/exercises/simple_hv/src/main.rs:226-227 | the register the emulation writes is the rd field of the emulated instruction |
| VmExit.LoadGuestPageFaultOutcome | arceos/exercises/simple_hv/src/main.rs:243-255 | a load guest-page fault sets a0 := 0x6688 and sepc += 4 and resumes, whatever the faulting address; when sepc + 4 overflows it is the overflow stop with only a0 written |
| VmExit.FaultsAreFatal | arceos/exercises/simple_hv/src/main.rs:235-277 | instruction guest-page faults, instruction page faults and every other cause are fatal, report the faulting address and sepc, and change nothing; the trailing `false` is unreachable |
| VmExit.OutcomeDependsOnArgumentsAndSepc | arceos/exercises/simple_hv/src/main.rs:169-278 | two contexts that agree on a0, a1 and sepc get the same outcome for the same trap values and decode result |
| VmExit.VmexitHandler | arceos/exercises/simple_hv/src/main.rs:169-278 | the in-place handler returns the outcome and leaves the context that Dispatch specifies |
| Mm.Query | arceos/exercises/simple_hv/src/main.rs:50-60 | `query(va)` succeeds exactly when va's page is in the page table, and fails with `NotMapped` otherwise |
| Mm.QueryFrameAndOffset | arceos/exercises/simple_hv/src/main.rs:50-60 | a translated address lies in the frame of va's page, at va's offset within the page |
| Mm.EmptyMappings | arceos/exercises/simple_hv/src/main.rs:37 | a new user address space has no mapping and satisfies the area-coverage invariant |
| Mm.MapLinearSpec | arceos/exercises/simple_hv/src/main.rs:83-84 | after `map_linear(va, pa, size)`: <br>- every address in [va, va+size) translates to pa + offset; <br>- every other address translates as before; <br>- the area list grows by the new area; <br>- it succeeds iff the range is in bounds, aligned, non-empty and overlaps no area; <br>- `AlreadyExists` is exactly the overlap case |
| Mm.MapAllocSpec | arceos/exercises/simple_hv/src/loader.rs:21 | after `map_alloc(start, size, flags, true)`: <br>- page k of the region maps to the k-th frame handed out; <br>- nothing outside the region changes; <br>- it succeeds iff the area checks pass and enough frames exist; a failed area check returns its error, too few frames return `NoMemory` |
| Mm.MapLinearKeepsCovered | arceos/exercises/simple_hv/src/main.rs:83-84 | `map_linear` keeps every page-table entry inside some mapped area |
| Mm.MapAllocKeepsCovered | arceos/exercises/simple_hv/src/loader.rs:21 | `map_alloc` keeps every page-table entry inside some mapped area |
| Mm.MappedAddressOverlaps | arceos/exercises/simple_hv/src/main.rs:78-88 | in an address space whose entries lie in areas, a mapped page overlaps an existing area, so mapping over it cannot succeed |
| Mm.AllocStartsAtFirstFrame | arceos/exercises/simple_hv/src/loader.rs:21-26 | after a successful populated `map_alloc` the region is at least one page and its start translates to the first frame |
| Mm.QueryWithinPage | arceos/exercises/simple_hv/src/loader.rs:23-26 | an address inside a mapped page translates to the same offset inside the page's frame |
| Mm.PagedByteAddress | arceos/exercises/simple_hv/src/loader.rs:21-26 | byte j of a region whose k-th page maps to frame k lies at offset j mod 4096 of frame j / 4096 |
| Mm.AddrSpace.constructor | arceos/exercises/simple_hv/src/main.rs:37 | the new address space is empty |
| Mm.AddrSpace.MapLinear | arceos/exercises/simple_hv/src/main.rs:83-84 | the in-place `map_linear` returns MapLinearSpec's verdict, and on success leaves MapLinearSpec's address space, otherwise the old one |
| Mm.AddrSpace.MapAlloc | arceos/exercises/simple_hv/src/loader.rs:21 | the in-place `map_alloc` returns MapAllocSpec's verdict, and on success leaves MapAllocSpec's address space, otherwise the old one |
| Loader.MaskClearsLow12 | arceos/exercises/simple_hv/src/loader.rs:19 | on a 64-bit word, `& !(4096 - 1)` is subtracting the remainder mod 4096 |
| Loader.AlignUp4K | arceos/exercises/simple_hv/src/loader.rs:19 | the rounded size is a multiple of 4096, at least the file size, less than file size + 4096, and equal to the file size when that is aligned |
| Loader.AlignUpIsLeast | arceos/exercises/simple_hv/src/loader.rs:19 | the rounded size is the least multiple of 4096 that holds the file |
| Loader.Fill | arceos/exercises/simple_hv/src/loader.rs:32-36 | `write_bytes` sets exactly the n bytes from `at` to the value and keeps every other byte |
| Loader.Overwrite | arceos/exercises/simple_hv/src/loader.rs:41-45 | `copy_nonoverlapping` puts d[i] at at + i and keeps every other byte |
| Loader.LoadedImageContents | arceos/exercises/simple_hv/src/loader.rs:30-46 | after zero-fill then copy: the region starts with the file bytes, the rest of it is zero, and memory outside it is unchanged |
| Loader.WriteBytes | arceos/exercises/simple_hv/src/loader.rs:31-37 | the in-place zero-fill of the RAM array leaves Fill of the old contents |
| Loader.CopyNonoverlapping | arceos/exercises/simple_hv/src/loader.rs:40-46 | the in-place copy into the RAM array leaves Overwrite of the old contents |
| Loader.LoadVmImage | arceos/exercises/simple_hv/src/loader.rs:9-49 | as written: <br>- an I/O error returns before anything is mapped or written; <br>- a `map_alloc` failure is fatal, with MapAllocSpec's error; <br>- on success the address space gains the page-rounded RWXU populated region at `vmEntry`, `vmEntry` translates to the address written, and RAM is the zero-filled, file-prefixed image there; <br>- it stops with the size overflow exactly when file size + 4096 does not fit in a `usize`, and then leaves the address space and RAM unchanged; <br>- it succeeds exactly when the file was read, its rounded size fits, `map_alloc` succeeds and the run from the first frame fits in RAM, and then writes at the first frame; <br>- the `query(VM_ENTRY)` panic never fires; <br>- on any other path RAM is unchanged |
| Loader.ContiguousLoadMissesSecondPage | arceos/exercises/simple_hv/src/loader.rs:30-46 | as written, when the second page's frame lies outside the run written from the first frame, the guest reads that frame's old byte at vmEntry + 4096 |
| Loader.ContiguousLoadExample | arceos/exercises/simple_hv/src/loader.rs:30-46 | a two-page image of 1s given frames 3 and 1 is not what the guest sees: it reads 0 at the start of its second page |
| Loader.PageBytes | arceos/exercises/simple_hv/src/loader.rs:40-46 | the bytes of page k agree, offset by offset, with the zero-padded image from k * 4096 |
| Loader.PageLoadStep | arceos/exercises/simple_hv/src/loader.rs:30-46 | with distinct frames, loading page k into its own frame extends the guest-visible prefix of the image by one page and keeps the earlier pages |
| Loader.LoadPages | arceos/exercises/simple_hv/src/loader.rs:30-46 | the corrected copy loop, page by page into the page's own frame: it completes exactly when every frame lies in RAM, and then the guest sees the zero-padded image through the mapping; it stops only at a frame outside RAM; RAM outside the frames is never touched |
| Loader.LoadVmImagePaged | arceos/exercises/simple_hv/src/loader.rs:9-49 | corrected loader: <br>- same error paths as LoadVmImage, and the size overflow exactly when file size + 4096 does not fit in a `usize`; <br>- on success the guest reads through the mapping the file bytes then zeros at every address of [vmEntry, vmEntry + rounded size); <br>- RAM outside the frames of that region is unchanged; <br>- it succeeds exactly when the file was read, its rounded size fits, `map_alloc` succeeds and every frame taken lies in RAM (ImageLoads), and never reports an unmapped entry; <br>- on success `vmEntry` translates to the first frame, and the area-coverage invariant is kept |
| Hypervisor.Hgatp | arceos/exercises/simple_hv/src/main.rs:150 | for every 64-bit root, hgatp >> 60 == 8 (Sv39x4), the low 60 bits equal root >> 12, and the two operands of `|` share no bit |
| Hypervisor.HgatpFields | arceos/exercises/simple_hv/src/main.rs:150 | for a root below 2^56 the PPN field is root >> 12, and VMID and the reserved bits are zero |
| Hypervisor.HgatpRedirectsUnalignedRoot | arceos/exercises/simple_hv/src/main.rs:150 | as written, a page-aligned root that is not 16 KiB aligned makes the stage-2 walk start at the 16 KiB boundary below it instead |
| Hypervisor.HgatpRedirectExample | arceos/exercises/simple_hv/src/main.rs:150 | a root page at 0x8020_1000 is walked at 0x8020_0000 |
| Hypervisor.CheckedHgatp | arceos/exercises/simple_hv/src/main.rs:149-158 | corrected: refuses exactly the roots that are not 16 KiB aligned or need more than 56 bits; otherwise it gives the source's value, whose mode is Sv39x4 and whose walk starts at the root itself |
| Hypervisor.Tolerated | arceos/exercises/simple_hv/src/main.rs:75-132 | only `AlreadyExists` is ever tolerated: for the entry page only when the GPA was already mapped elsewhere, for the page-table root in both cases |
| Hypervisor.IdentityMap | arceos/exercises/simple_hv/src/main.rs:75-132 | one identity block: <br>- an existing identity translation makes no call; <br>- otherwise, when `map_linear(gpa, gpa, size)` succeeds, the result is its address space, and a tolerated failure keeps the old one; <br>- it fails exactly when the map fails with an error that is not tolerated |
| Hypervisor.UnmappedRegionBecomesIdentity | arceos/exercises/simple_hv/src/main.rs:91-97 | when the GPA was unmapped and the block succeeds by mapping, every address of the region translates to itself |
| Hypervisor.MappedElsewhereInstallsNothing | arceos/exercises/simple_hv/src/main.rs:78-90 | when the GPA is already mapped to another address, a surviving block leaves the address space as it was, so the GPA still does not translate to itself |
| Hypervisor.SetupIdentity | arceos/exercises/simple_hv/src/main.rs:50-132 | an unmapped entry is the fatal "Cannot find entry address"; setup succeeds exactly when the entry is mapped and both identity blocks (entry page, then page-table root) succeed, and then returns the address space those two blocks leave and the GPA the entry translated to |
| Hypervisor.SetupMapsEntryToItself | arceos/exercises/simple_hv/src/main.rs:65-101 | when the entry's GPA was not yet mapped, a successful setup leaves that GPA translating to itself, so the guest's first fetch resolves through the identity mapping |
| Hypervisor.PreparedContext | arceos/exercises/simple_hv/src/main.rs:280-309 | the prepared context starts at the entry GPA with vsatp = 0 and unchanged registers; SPV, SPVP and SPP are set; every other status bit is as read from the CSRs |
| Hypervisor.PrepareGuestContext | arceos/exercises/simple_hv/src/main.rs:280-309 | the in-place setup leaves PreparedContext and returns the hstatus value also written to the CSR |
| Hypervisor.StepOutcomeAnyState | arceos/exercises/simple_hv/src/main.rs:160-166 | the handler's answer to a trap depends only on what the world switch saved, not on the context before entry |
| Hypervisor.Run | arceos/exercises/simple_hv/src/main.rs:143-146 | the loop enters the guest at most once per event, at least once when there is an event, and has used every event when the guest is still resumed at the end |
| Hypervisor.RunStopsAtFirstExit | arceos/exercises/simple_hv/src/main.rs:143-144 | the loop enters the guest once per event up to and including the first event not resumed from, and ends with that event's answer; if all are resumed it has run every event |
| Hypervisor.RunShutsDownIff | arceos/exercises/simple_hv/src/main.rs:143-146 | the run shuts down iff some event asks for shutdown and every earlier event is resumed |
| Hypervisor.RunGuestOnce | arceos/exercises/simple_hv/src/main.rs:160-163 | the world switch stores the guest's registers and sepc in the context |
| Hypervisor.RunGuestLoop | arceos/exercises/simple_hv/src/main.rs:143-144 | the in-place loop returns the outcome, entry count and context that Run specifies |
| Hypervisor.SetupAddressSpace | arceos/exercises/simple_hv/src/main.rs:50-132 | the in-place entry query and identity blocks succeed iff SetupIdentity does, return its entry GPA and leave its address space, or fail with its failure |
| Hypervisor.IdentityMapInPlace | arceos/exercises/simple_hv/src/main.rs:75-132 | the in-place identity block succeeds iff IdentityMap does, and leaves its address space |
| Hypervisor.StartGuest | arceos/exercises/simple_hv/src/main.rs:50-146 | (GuestStarted) setup failures stop with SetupIdentity's failure; a root CheckedHgatp refuses stops with that failure; otherwise hgatp is the source's value and the guest runs from PreparedContext at the entry GPA, ending as Run says; it ends "Hypervisor ok" iff setup succeeds and some event shuts down after only resumed ones |
| Hypervisor.RunHypervisor | arceos/exercises/simple_hv/src/main.rs:33-146 | `main`: <br>- it gets past the loader exactly when ImageLoads holds of the inputs; an I/O error, a size overflow or a `map_alloc` failure ends in that load panic, and an unmapped entry never does; <br>- past the loader the guest sees its image at `vmEntry`, `vmEntry` translates to the first frame, RAM outside the image's frames is unchanged, and the area-coverage invariant is kept; <br>- from the loaded address space, setup, hgatp, the returned context and the entry count are what StartGuest promises (GuestStarted); <br>- it ends "Hypervisor ok" iff ImageLoads holds, setup succeeds and the guest asks for shutdown after only resumed traps |

## Left out

- `_run_guest` (vcpu.rs) is not part of this model. The world switch is an input: each `TrapEvent` carries the registers and sepc it saved and the trap values read afterwards.
- Raw CSR access is left out: the reads of `scause`, `stval`, `htinst`, `hstatus` and `sstatus`, `csrw hgatp`, and `hfence_gvma_all`. Values read are inputs. The hstatus value written is returned by PrepareGuestContext. The hgatp value is returned by StartGuest.
- hstatus and sstatus are modelled as sets of named bits, because their bit positions come from `csrs::defs` and the `riscv` crate, which are not part of this model.
- `SbiMessage::from_regs` (sbi.rs) is not part of this model. Its result is the input `SbiDecode`: Reset, another message, or a decode error.
- `axmm` is not part of this model. Module `Mm` gives it a reference semantics:
  - 4 KiB pages only;
  - no unmapping;
  - `query` returns the physical address without flags or level;
  - `page_table_root` is a fixed field of the address space;
  - the frames `map_alloc` takes are an input sequence, in allocation order.
- `phys_to_virt` is taken as the identity: physical memory is one array indexed by physical address.
- File I/O is an input: `File::open` and `read_to_end` become a `Result` of bytes or an I/O error.
- Every `ax_println!` diagnostic is left out, and so is `print_with_color`, which only prints a fixed string.
- ELF parsing is left out; the loader handles flat images only.
- VmExit.Dispatch: a `usize` overflow of `sepc += 4` is modelled as a fatal stop (`SepcOverflow`, as a debug build panics), not as wrap-around. A fatal exit therefore leaves the state unchanged, except that the overflow stop after an emulated `csrr` or load has already written a1 or a0 respectively; after a U-mode ecall it writes nothing.
- Loader.LoadVmImage: a `usize` overflow of `file_size + PAGE_SIZE_4K`, the first addition the source evaluates, is modelled as a fatal stop (`SizeOverflow`), not as wrap-around. A `Vec`'s length never exceeds `isize::MAX`, so this stop cannot happen for a file read into memory.
- Loader.LoadVmImage: a write beyond the end of the RAM array is modelled as a fatal stop (`OutsideRam`). The source has no such check; memory outside physical RAM is not modelled.
- Hypervisor.RunGuestLoop runs over a finite sequence of trap events. When the events run out with the guest still resumed, the run ends as `StillRunning`. Divergence is not modelled.
- Hypervisor.StartGuest programs hgatp through the corrected CheckedHgatp (see Findings). So a root that is not 16 KiB aligned stops setup, and so does a root of 2^56 or more, which the source shifts into hgatp unchecked although Sv39x4 physical addresses have 56 bits. The source's own value is Hgatp.
- Hypervisor.RunHypervisor loads through the corrected LoadVmImagePaged (see Findings). It requires that the frames handed out are distinct and that every physical address fits in a `usize`.
- Hypervisor.RunHypervisor: the final `panic!("Hypervisor ok!")` is the end value `HypervisorOk`. Every other panic is a named end value with its reason.
- The handler's own `u32` fetch from guest memory (`read_volatile` at sepc) is the input `wordAtSepc`.
- The `guest_page_table_root` argument of `prepare_guest_context` is unused by the code (vsatp is set to 0), so it is not a parameter.

## Findings

| source | as written | input that shows it | evidently intended | confidence | as-written member | corrected member |
|---|---|---|---|---|---|---|
| arceos/exercises/simple_hv/src/main.rs:150 | hgatp takes `root >> 12` as the PPN of any 4 KiB-aligned root; for Sv39x4 the root table is 16 KiB and the two low PPN bits are ignored | root 0x8020_1000: the stage-2 walk starts at 0x8020_0000 | refuse (or allocate) a root that is 16 KiB aligned, so the walk starts at the page table the hypervisor filled | medium, not executed | Hypervisor.HgatpRedirectsUnalignedRoot | Hypervisor.CheckedHgatp |
| arceos/exercises/simple_hv/src/loader.rs:30-46 | zero-fills and copies `aligned_size` bytes as one run from the physical address of the first page, although `map_alloc` takes one frame per page | a two-page image whose pages get frames 3 and 1: the guest reads the old contents of frame 1 (zero, if frames are handed out zeroed) at the start of its second page, not its image | write each page into the frame the page table gives for it | medium, not executed | Loader.ContiguousLoadMissesSecondPage | Loader.LoadVmImagePaged |

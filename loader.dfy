/**
 * `load_vm_image`: reads a flat guest image, maps a page-rounded region at the
 * guest entry address, zero-fills the region's physical memory and copies the
 * image to its start.  Physical memory is the array `ram`, indexed by physical
 * address (the kernel's direct map `phys_to_virt` is taken as the identity).
 */
module Loader {
  import opened Results
  import opened Riscv
  import opened Mm

  type Byte = b: nat | b < 256

  /** An `io::Error` from opening or reading the image file; its kinds are not distinguished. */
  datatype IoError = IoError(code: nat)

  /** Where the loader stops the hypervisor instead of returning. */
  datatype LoadPanic =
    | SizeOverflow(fileSize: nat)       // `file_size + PAGE_SIZE_4K` overflows usize
    | MapAllocFailed(error: AxError)    // `map_alloc(..).unwrap()`
    | EntryNotMapped                    // `query(VM_ENTRY).unwrap_or_else(panic!)`
    | OutsideRam(paddr: nat, size: nat) // the write would leave physical memory

  datatype LoadOutcome = Loaded | IoFailed(error: IoError) | Panicked(reason: LoadPanic)

  // ---------------------------------------------------------------------------
  // Page rounding.

  /** `x & !(PAGE_SIZE_4K - 1)`: clears the low 12 bits (see MaskClearsLow12). */
  function ClearLow12(x: nat): nat
  {
    x - x % PAGE_SIZE_4K
  }

  /** On a 64-bit word, masking with `!0xfff` is subtracting the remainder modulo 4096. */
  lemma MaskClearsLow12(x: bv64)
    ensures x & !0xFFF == x - x % 0x1000
  {
  }

  /** `(file_size + PAGE_SIZE_4K - 1) & !(PAGE_SIZE_4K - 1)`. */
  function AlignUp4K(n: nat): (r: nat)
    ensures r % PAGE_SIZE_4K == 0
    ensures n <= r < n + PAGE_SIZE_4K
    ensures n % PAGE_SIZE_4K == 0 ==> r == n
  {
    ClearLow12(n + PAGE_SIZE_4K - 1)
  }

  /** The rounded size is the least multiple of 4096 that holds n bytes. */
  lemma AlignUpIsLeast(n: nat, m: nat)
    requires m % PAGE_SIZE_4K == 0 && n <= m
    ensures AlignUp4K(n) <= m
  {
  }

  // ---------------------------------------------------------------------------
  // Physical memory updates.

  /** `core::ptr::write_bytes(at, b, n)` on the value of memory. */
  function Fill(s: seq<Byte>, at: nat, n: nat, b: Byte): (r: seq<Byte>)
    requires at + n <= |s|
    ensures |r| == |s|
    ensures forall i | 0 <= i < |s| :: r[i] == if at <= i < at + n then b else s[i]
  {
    s[..at] + seq(n, _ => b) + s[at + n..]
  }

  /** `core::ptr::copy_nonoverlapping(d, at, |d|)` on the value of memory. */
  function Overwrite(s: seq<Byte>, at: nat, d: seq<Byte>): (r: seq<Byte>)
    requires at + |d| <= |s|
    ensures |r| == |s|
    ensures forall i | 0 <= i < |s| :: r[i] == if at <= i < at + |d| then d[i - at] else s[i]
  {
    s[..at] + d + s[at + |d|..]
  }

  /** Memory after zero-filling [at, at + n) and then copying `d` to `at`. */
  function LoadedImage(s: seq<Byte>, at: nat, n: nat, d: seq<Byte>): seq<Byte>
    requires |d| <= n && at + n <= |s|
  {
    Overwrite(Fill(s, at, n, 0), at, d)
  }

  /**
   * After loading, the region starts with the image bytes, the rest of it is
   * zero, and memory outside the region is unchanged.
   */
  lemma LoadedImageContents(s: seq<Byte>, at: nat, n: nat, d: seq<Byte>)
    requires |d| <= n && at + n <= |s|
    ensures var r := LoadedImage(s, at, n, d);
      |r| == |s|
      && r[at..at + |d|] == d
      && (forall i | at + |d| <= i < at + n :: r[i] == 0)
      && (forall i | 0 <= i < |s| && (i < at || at + n <= i) :: r[i] == s[i])
  {
    var r := LoadedImage(s, at, n, d);
    assert r[at..at + |d|] == d by {
      forall i | 0 <= i < |d| ensures r[at..at + |d|][i] == d[i] {
        assert r[at + i] == d[i];
      }
    }
  }

  method WriteBytes(ram: array<Byte>, at: nat, b: Byte, n: nat)
    requires at + n <= ram.Length
    modifies ram
    ensures ram[..] == Fill(old(ram[..]), at, n, b)
  {
    forall i | at <= i < at + n {
      ram[i] := b;
    }
  }

  method CopyNonoverlapping(d: seq<Byte>, ram: array<Byte>, at: nat)
    requires at + |d| <= ram.Length
    modifies ram
    ensures ram[..] == Overwrite(old(ram[..]), at, d)
  {
    forall i | at <= i < at + |d| {
      ram[i] := d[i - at];
    }
  }

  // ---------------------------------------------------------------------------

  /**
   * `load_vm_image(fname, uspace)`.  `file` is the result of opening and reading
   * the file, `vmEntry` is `VM_ENTRY`, and `frames` are the frames the frame
   * allocator hands to `map_alloc`.  The ghost `paddr` is the physical address
   * the image was written to.
   */
  method LoadVmImage(file: Result<seq<Byte>, IoError>, uspace: AddrSpace, ram: array<Byte>, vmEntry: nat, frames: seq<nat>)
    returns (r: LoadOutcome, ghost paddr: nat)
    modifies uspace, ram
    ensures file.Err? ==> r == IoFailed(file.error) && uspace.View() == old(uspace.View()) && ram[..] == old(ram[..])
    ensures r.IoFailed? ==> file.Err?
    ensures r == Loaded ==>
      file.Ok? && |file.value| + PAGE_SIZE_4K < WORD_MODULUS
      && var size := AlignUp4K(|file.value|);
         var mapped := MapAllocSpec(old(uspace.View()), vmEntry, size, RWXU, true, frames);
         mapped.Ok? && uspace.View() == mapped.value
         && Query(uspace.pt, vmEntry) == Ok(paddr)
         && paddr + size <= ram.Length
         && ram[..] == LoadedImage(old(ram[..]), paddr, size, file.value)
    ensures r.Panicked? && r.reason.MapAllocFailed? <==>
      file.Ok? && |file.value| + PAGE_SIZE_4K < WORD_MODULUS
      && MapAllocSpec(old(uspace.View()), vmEntry, AlignUp4K(|file.value|), RWXU, true, frames).Err?
    ensures r.Panicked? && r.reason.MapAllocFailed? ==>
      MapAllocSpec(old(uspace.View()), vmEntry, AlignUp4K(|file.value|), RWXU, true, frames) == Err(r.reason.error)
      && uspace.View() == old(uspace.View())
    ensures r != Loaded ==> ram[..] == old(ram[..])
    ensures !(r.Panicked? && r.reason.EntryNotMapped?)
    ensures r == Loaded <==>
      file.Ok? && |file.value| + PAGE_SIZE_4K < WORD_MODULUS
      && MapAllocSpec(old(uspace.View()), vmEntry, AlignUp4K(|file.value|), RWXU, true, frames).Ok?
      && 0 < |frames| && frames[0] * PAGE_SIZE_4K + AlignUp4K(|file.value|) <= ram.Length
    ensures r == Loaded ==> 0 < |frames| && paddr == frames[0] * PAGE_SIZE_4K
    ensures r.Panicked? && r.reason.SizeOverflow? <==> file.Ok? && |file.value| + PAGE_SIZE_4K >= WORD_MODULUS
    ensures r.Panicked? && r.reason.SizeOverflow? ==> uspace.View() == old(uspace.View()) && ram[..] == old(ram[..])
  {
    paddr := 0;
    if file.Err? {
      return IoFailed(file.error), paddr;
    }
    var data := file.value;
    var fileSize := |data|;
    if fileSize + PAGE_SIZE_4K >= WORD_MODULUS {
      return Panicked(SizeOverflow(fileSize)), paddr;
    }
    var alignedSize := AlignUp4K(fileSize);

    var mapped := uspace.MapAlloc(vmEntry, alignedSize, RWXU, true, frames);
    if mapped.Err? {
      return Panicked(MapAllocFailed(mapped.error)), paddr;
    }
    AllocStartsAtFirstFrame(old(uspace.View()), vmEntry, alignedSize, RWXU, frames);

    var q := uspace.QueryVa(vmEntry);
    if q.Err? {
      return Panicked(EntryNotMapped), paddr;
    }
    var pa := q.value;
    paddr := pa;
    if pa + alignedSize > ram.Length {
      return Panicked(OutsideRam(pa, alignedSize)), paddr;
    }

    WriteBytes(ram, pa, 0, alignedSize);
    CopyNonoverlapping(data, ram, pa);
    return Loaded, paddr;
  }

  // ---------------------------------------------------------------------------
  // What the guest reads after loading.

  /** Byte `j` of the loaded region: the image, then zeros up to the page boundary. */
  function ImageByte(data: seq<Byte>, j: nat): Byte
  {
    if j < |data| then data[j] else 0
  }

  /** The byte the guest reads at `va` through the mapping; None when `va` is unmapped or outside RAM. */
  function GuestByte(m: Mappings, ram: seq<Byte>, va: nat): Option<Byte>
  {
    match Query(m.pt, va)
    case Ok(pa) => if pa < |ram| then Some(ram[pa]) else None
    case Err(_) => None
  }

  /** The guest sees the first `n` bytes of the loaded region at `start`. */
  predicate ImageVisible(m: Mappings, ram: seq<Byte>, start: nat, data: seq<Byte>, n: nat)
  {
    forall j | 0 <= j < n :: GuestByte(m, ram, start + j) == Some(ImageByte(data, j))
  }

  /**
   * As written, the loader zero-fills and copies one contiguous run from the
   * first page's frame.  `map_alloc` takes one frame per page from the
   * allocator, so when the second page's frame lies outside that run the guest
   * reads whatever was in that frame instead of the image's second page.
   */
  lemma {:induction false} ContiguousLoadMissesSecondPage(m: Mappings, vmEntry: nat, data: seq<Byte>, frames: seq<nat>, ram: seq<Byte>)
    requires 2 <= |frames| && PAGE_SIZE_4K < |data|
    requires MapAllocSpec(m, vmEntry, AlignUp4K(|data|), RWXU, true, frames).Ok?
    requires frames[0] * PAGE_SIZE_4K + AlignUp4K(|data|) <= |ram| && frames[1] * PAGE_SIZE_4K < |ram|
    requires !(frames[0] * PAGE_SIZE_4K <= frames[1] * PAGE_SIZE_4K < frames[0] * PAGE_SIZE_4K + AlignUp4K(|data|))
    ensures GuestByte(MapAllocSpec(m, vmEntry, AlignUp4K(|data|), RWXU, true, frames).value,
                      LoadedImage(ram, frames[0] * PAGE_SIZE_4K, AlignUp4K(|data|), data), vmEntry + PAGE_SIZE_4K)
      == Some(ram[frames[1] * PAGE_SIZE_4K])
  {
    var size := AlignUp4K(|data|);
    var mapped := MapAllocSpec(m, vmEntry, size, RWXU, true, frames).value;
    assert Query(mapped.pt, vmEntry + 1 * PAGE_SIZE_4K) == Ok(frames[1] * PAGE_SIZE_4K);
  }

  /** The example's two-page image, every byte 1. */
  function ExampleImage(): (d: seq<Byte>)
    ensures |d| == 2 * PAGE_SIZE_4K && forall i | 0 <= i < |d| :: d[i] == 1
  {
    seq(2 * PAGE_SIZE_4K, _ => 1)
  }

  /** The example's five frames of physical memory, every byte 0. */
  function ExampleRam(): (ram: seq<Byte>)
    ensures |ram| == 5 * PAGE_SIZE_4K && forall i | 0 <= i < |ram| :: ram[i] == 0
  {
    seq(5 * PAGE_SIZE_4K, _ => 0)
  }

  /** Two pages at 0x1000 of an empty address space can be allocated from frames 3 and 1. */
  lemma ExampleMapAllocSucceeds()
    ensures MapAllocSpec(EmptyMappings(0, 0x10000), 0x1000, 2 * PAGE_SIZE_4K, RWXU, true, [3, 1]).Ok?
  {
    var m := EmptyMappings(0, 0x10000);
    assert !OverlapsAny(m.areas, 0x1000, 2 * PAGE_SIZE_4K);
  }

  /**
   * An instance: a two-page image of 1s whose pages get frames 3 and 1.  The
   * guest reads 0 at the start of its second page, where the image has 1.
   */
  lemma ContiguousLoadExample()
    ensures var data := ExampleImage();
      var ram := ExampleRam();
      var mapped := MapAllocSpec(EmptyMappings(0, 0x10000), 0x1000, 2 * PAGE_SIZE_4K, RWXU, true, [3, 1]);
      mapped.Ok?
      && !ImageVisible(mapped.value, LoadedImage(ram, 3 * PAGE_SIZE_4K, 2 * PAGE_SIZE_4K, data), 0x1000, data, 2 * PAGE_SIZE_4K)
  {
    var data := ExampleImage();
    var ram := ExampleRam();
    var m := EmptyMappings(0, 0x10000);
    assert AlignUp4K(|data|) == 2 * PAGE_SIZE_4K;
    ExampleMapAllocSucceeds();
    var mapped := MapAllocSpec(m, 0x1000, 2 * PAGE_SIZE_4K, RWXU, true, [3, 1]);
    var loaded := LoadedImage(ram, 3 * PAGE_SIZE_4K, 2 * PAGE_SIZE_4K, data);
    ContiguousLoadMissesSecondPage(m, 0x1000, data, [3, 1], ram);
    var seen := GuestByte(mapped.value, loaded, 0x1000 + PAGE_SIZE_4K);
    assert seen == Some(0) by {
      assert ram[1 * PAGE_SIZE_4K] == 0;
    }
    assert !ImageVisible(mapped.value, loaded, 0x1000, data, 2 * PAGE_SIZE_4K) by {
      assert ImageByte(data, PAGE_SIZE_4K) == 1;
      assert seen != Some(ImageByte(data, PAGE_SIZE_4K));
    }
  }

  /** The bytes of page `k` of the image (shorter than a page, or empty, past its end). */
  function PageBytes(data: seq<Byte>, k: nat): (r: seq<Byte>)
    ensures |r| <= PAGE_SIZE_4K
    ensures forall o | 0 <= o < PAGE_SIZE_4K :: ImageByte(r, o) == ImageByte(data, k * PAGE_SIZE_4K + o)
  {
    var lo := k * PAGE_SIZE_4K;
    if |data| <= lo then []
    else if |data| <= lo + PAGE_SIZE_4K then data[lo..]
    else data[lo..lo + PAGE_SIZE_4K]
  }

  /** Two different frames share no byte. */
  lemma DistinctFramesDisjoint(f: nat, g: nat, o: nat)
    requires f != g && o < PAGE_SIZE_4K
    ensures !(g * PAGE_SIZE_4K <= f * PAGE_SIZE_4K + o < g * PAGE_SIZE_4K + PAGE_SIZE_4K)
  {
    if f < g {
      assert f * PAGE_SIZE_4K + PAGE_SIZE_4K <= g * PAGE_SIZE_4K;
    } else {
      assert g * PAGE_SIZE_4K + PAGE_SIZE_4K <= f * PAGE_SIZE_4K;
    }
  }

  /**
   * Loading page `k` into its own frame extends what the guest sees by one
   * page: the earlier pages sit in other frames and are left alone.
   */
  lemma {:induction false} PageLoadStep(m: Mappings, ram: seq<Byte>, start: nat, data: seq<Byte>, frames: seq<nat>, k: nat)
    requires IsAligned4K(start) && k < |frames|
    requires forall i, j | 0 <= i < j < |frames| :: frames[i] != frames[j]
    requires forall p | 0 <= p < |frames| :: Query(m.pt, start + p * PAGE_SIZE_4K) == Ok(frames[p] * PAGE_SIZE_4K)
    requires frames[k] * PAGE_SIZE_4K + PAGE_SIZE_4K <= |ram|
    requires ImageVisible(m, ram, start, data, k * PAGE_SIZE_4K)
    ensures ImageVisible(m, LoadedImage(ram, frames[k] * PAGE_SIZE_4K, PAGE_SIZE_4K, PageBytes(data, k)), start, data, (k + 1) * PAGE_SIZE_4K)
  {
    var pa := frames[k] * PAGE_SIZE_4K;
    var d := PageBytes(data, k);
    var ram' := LoadedImage(ram, pa, PAGE_SIZE_4K, d);
    forall j | 0 <= j < (k + 1) * PAGE_SIZE_4K
      ensures GuestByte(m, ram', start + j) == Some(ImageByte(data, j))
    {
      PagedByteAddress(m.pt, start, frames, j);
      var p, o := j / PAGE_SIZE_4K, j % PAGE_SIZE_4K;
      var a := frames[p] * PAGE_SIZE_4K + o;
      if j < k * PAGE_SIZE_4K {
        assert p < k;
        DistinctFramesDisjoint(frames[p], frames[k], o);
        assert GuestByte(m, ram, start + j) == Some(ImageByte(data, j));
        assert ram'[a] == ram[a];
      } else {
        assert p == k && j == k * PAGE_SIZE_4K + o;
        assert ram'[a] == ImageByte(d, o);
      }
    }
  }

  /** Whether physical address `a` lies in one of the first `n` frames handed out. */
  predicate InFrames(a: nat, frames: seq<nat>, n: nat)
  {
    exists k | 0 <= k < n && k < |frames| :: frames[k] * PAGE_SIZE_4K <= a < frames[k] * PAGE_SIZE_4K + PAGE_SIZE_4K
  }

  /** Each of the first `n` frames handed out lies wholly inside physical memory of `ramLength` bytes. */
  predicate FramesInRam(frames: seq<nat>, n: nat, ramLength: nat)
  {
    forall k | 0 <= k < n && k < |frames| :: frames[k] * PAGE_SIZE_4K + PAGE_SIZE_4K <= ramLength
  }

  lemma FramesInRamStep(frames: seq<nat>, k: nat, ramLength: nat)
    requires FramesInRam(frames, k, ramLength) && k < |frames| && frames[k] * PAGE_SIZE_4K + PAGE_SIZE_4K <= ramLength
    ensures FramesInRam(frames, k + 1, ramLength)
  {
  }

  /**
   * The inputs for which the corrected loader succeeds: the file was read, its
   * rounded size fits in a `usize`, `map_alloc` succeeds, and every frame it
   * takes lies in physical memory.
   */
  predicate ImageLoads(file: Result<seq<Byte>, IoError>, m: Mappings, vmEntry: nat, frames: seq<nat>, ramLength: nat)
  {
    file.Ok? && |file.value| + PAGE_SIZE_4K < WORD_MODULUS
    && MapAllocSpec(m, vmEntry, AlignUp4K(|file.value|), RWXU, true, frames).Ok?
    && FramesInRam(frames, AlignUp4K(|file.value|) / PAGE_SIZE_4K, ramLength)
  }

  /**
   * Corrected `load_vm_image`: zero-fills and copies page by page, each into
   * the frame the page table gives for that page.  With the allocator handing
   * out distinct frames, the guest then sees the whole image at `vmEntry`.
   */
  method LoadVmImagePaged(file: Result<seq<Byte>, IoError>, uspace: AddrSpace, ram: array<Byte>, vmEntry: nat, frames: seq<nat>)
    returns (r: LoadOutcome)
    requires forall i, j | 0 <= i < j < |frames| :: frames[i] != frames[j]
    modifies uspace, ram
    ensures file.Err? ==> r == IoFailed(file.error) && uspace.View() == old(uspace.View()) && ram[..] == old(ram[..])
    ensures r.IoFailed? ==> file.Err?
    ensures r == Loaded ==>
      file.Ok? && |file.value| + PAGE_SIZE_4K < WORD_MODULUS
      && var mapped := MapAllocSpec(old(uspace.View()), vmEntry, AlignUp4K(|file.value|), RWXU, true, frames);
         mapped.Ok? && uspace.View() == mapped.value
         && ImageVisible(uspace.View(), ram[..], vmEntry, file.value, AlignUp4K(|file.value|))
    ensures r.Panicked? && r.reason.MapAllocFailed? <==>
      file.Ok? && |file.value| + PAGE_SIZE_4K < WORD_MODULUS
      && MapAllocSpec(old(uspace.View()), vmEntry, AlignUp4K(|file.value|), RWXU, true, frames).Err?
    ensures r.Panicked? && r.reason.MapAllocFailed? ==>
      MapAllocSpec(old(uspace.View()), vmEntry, AlignUp4K(|file.value|), RWXU, true, frames) == Err(r.reason.error)
      && uspace.View() == old(uspace.View())
    ensures r == Loaded ==>
      file.Ok? &&
      forall a | 0 <= a < ram.Length && !InFrames(a, frames, AlignUp4K(|file.value|) / PAGE_SIZE_4K) :: ram[a] == old(ram[a])
    ensures r.Panicked? && r.reason.SizeOverflow? <==> file.Ok? && |file.value| + PAGE_SIZE_4K >= WORD_MODULUS
    ensures r.Panicked? && r.reason.SizeOverflow? ==> uspace.View() == old(uspace.View()) && ram[..] == old(ram[..])
    ensures !(r.Panicked? && r.reason.EntryNotMapped?)
    ensures r == Loaded <==> ImageLoads(file, old(uspace.View()), vmEntry, frames, ram.Length)
    ensures r == Loaded ==> 0 < |frames| && Query(uspace.pt, vmEntry) == Ok(frames[0] * PAGE_SIZE_4K)
    ensures r == Loaded && Covered(old(uspace.View())) ==> Covered(uspace.View())
  {
    if file.Err? {
      return IoFailed(file.error);
    }
    var data := file.value;
    var fileSize := |data|;
    if fileSize + PAGE_SIZE_4K >= WORD_MODULUS {
      return Panicked(SizeOverflow(fileSize));
    }
    var alignedSize := AlignUp4K(fileSize);

    var mapped := uspace.MapAlloc(vmEntry, alignedSize, RWXU, true, frames);
    if mapped.Err? {
      return Panicked(MapAllocFailed(mapped.error));
    }

    AllocStartsAtFirstFrame(old(uspace.View()), vmEntry, alignedSize, RWXU, frames);
    if Covered(old(uspace.View())) {
      MapAllocKeepsCovered(old(uspace.View()), vmEntry, alignedSize, RWXU, true, frames);
    }
    r := LoadPages(uspace, ram, vmEntry, data, frames, alignedSize / PAGE_SIZE_4K);
  }

  /**
   * The copy loop of the corrected loader: page k of the image is zero-filled
   * and copied into `frames[k]`, the frame the page table gives for it.
   */
  method LoadPages(uspace: AddrSpace, ram: array<Byte>, vmEntry: nat, data: seq<Byte>, frames: seq<nat>, pages: nat)
    returns (r: LoadOutcome)
    requires IsAligned4K(vmEntry) && pages <= |frames|
    requires forall i, j | 0 <= i < j < |frames| :: frames[i] != frames[j]
    requires forall p | 0 <= p < pages :: Query(uspace.pt, vmEntry + p * PAGE_SIZE_4K) == Ok(frames[p] * PAGE_SIZE_4K)
    modifies ram
    ensures r == Loaded || (r.Panicked? && r.reason.OutsideRam?)
    ensures r == Loaded <==> FramesInRam(frames, pages, ram.Length)
    ensures r == Loaded ==> ImageVisible(uspace.View(), ram[..], vmEntry, data, pages * PAGE_SIZE_4K)
    ensures forall a | 0 <= a < ram.Length && !InFrames(a, frames, pages) :: ram[a] == old(ram[a])
  {
    ghost var used := frames[..pages];
    assert forall p | 0 <= p < |used| :: Query(uspace.pt, vmEntry + p * PAGE_SIZE_4K) == Ok(used[p] * PAGE_SIZE_4K);
    var k := 0;
    while k < pages
      invariant k <= pages
      invariant ImageVisible(uspace.View(), ram[..], vmEntry, data, k * PAGE_SIZE_4K)
      invariant forall a | 0 <= a < ram.Length && !InFrames(a, frames, k) :: ram[a] == old(ram[a])
      invariant FramesInRam(frames, k, ram.Length)
      modifies ram
    {
      var q := uspace.QueryVa(vmEntry + k * PAGE_SIZE_4K);
      assert q == Ok(used[k] * PAGE_SIZE_4K);
      var pa := q.value;
      if pa + PAGE_SIZE_4K > ram.Length {
        return Panicked(OutsideRam(pa, PAGE_SIZE_4K));
      }
      FramesInRamStep(frames, k, ram.Length);
      ghost var before := ram[..];
      WriteBytes(ram, pa, 0, PAGE_SIZE_4K);
      CopyNonoverlapping(PageBytes(data, k), ram, pa);
      PageLoadStep(uspace.View(), before, vmEntry, data, used, k);
      k := k + 1;
    }
    return Loaded;
  }
}

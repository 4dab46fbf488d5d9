/**
 The kernel's address space as pmap_vm_init builds it
 (kernel/machine/pmap/pmap_init.c:159-271), and the translations between
 physical addresses and the physmap (kernel/machine/pmap/pmap.c:30-42).
 */
module KernelMap {
  import opened Pages
  import opened Bits
  import opened PageTables
  import opened TableUse
  import opened PageMapping
  import opened BuddySizes
  import opened AllocatorSpec
  import opened AllocatorRuns
  import opened PageFrameAllocator
  import opened AllocatorBoot

  const VM_KERNEL_BASE_ADDRESS: nat := 0xFFFF_FF80_0000_0000
  const VM_L1_ENTRY_SIZE: nat := 0x4000_0000
  const MMIO_BASE: nat := 0x3F00_0000
  const MMIO_END: nat := 0x4000_0000

  /** The values of the templates that pmap_asm.h:80-140 composes. */
  const PTE_TEMPLATE_PAGE_NORMAL_KERN_RX: nat := 0x1000_0000_0000_0683
  const PTE_TEMPLATE_PAGE_NORMAL_KERN_RO: nat := 0x1800_0000_0000_0683
  const PTE_TEMPLATE_PAGE_NORMAL_KERN_RW: nat := 0x1800_0000_0000_0603
  const PTE_TEMPLATE_PAGE_DEVICE_KERN_RW: nat := 0x1800_0000_0000_0407

  const UXN_TABLE: nat := 0x1000_0000_0000_0000
  const PXN_TABLE: nat := 0x0800_0000_0000_0000
  const ACCESS_FLAG: nat := 0x400
  const SH_OUTER_SHAREABLE: nat := 0x200
  const AP_KERN_RO_USER_NA: nat := 0x80
  const MAIR_IDX_DEVICE: nat := 0x4

  /** The templates are what the macros compose of disjoint fields, and leave the address field clear. */
  lemma KernelTemplates()
    ensures PTE_TEMPLATE_PAGE_NORMAL_KERN_RX
         == PTE_VALID_TABLE + UXN_TABLE + SH_OUTER_SHAREABLE + ACCESS_FLAG + AP_KERN_RO_USER_NA
    ensures PTE_TEMPLATE_PAGE_NORMAL_KERN_RO == PTE_TEMPLATE_PAGE_NORMAL_KERN_RX + PXN_TABLE
    ensures PTE_TEMPLATE_PAGE_NORMAL_KERN_RW
         == PTE_VALID_TABLE + UXN_TABLE + SH_OUTER_SHAREABLE + ACCESS_FLAG + PXN_TABLE
    ensures PTE_TEMPLATE_PAGE_DEVICE_KERN_RW == PTE_VALID_TABLE + UXN_TABLE + PXN_TABLE + MAIR_IDX_DEVICE + ACCESS_FLAG
    ensures PTE_TEMPLATE_TABLE_KERN_ONLY == PTE_VALID_TABLE + UXN_TABLE + ACCESS_FLAG
    ensures Template(PTE_TEMPLATE_PAGE_NORMAL_KERN_RX) && Template(PTE_TEMPLATE_PAGE_NORMAL_KERN_RO)
    ensures Template(PTE_TEMPLATE_PAGE_NORMAL_KERN_RW) && Template(PTE_TEMPLATE_PAGE_DEVICE_KERN_RW)
  {
    hide And, Template;
    TemplateIsFields(PTE_TEMPLATE_PAGE_NORMAL_KERN_RX);
    TemplateIsFields(PTE_TEMPLATE_PAGE_NORMAL_KERN_RO);
    TemplateIsFields(PTE_TEMPLATE_PAGE_NORMAL_KERN_RW);
    TemplateIsFields(PTE_TEMPLATE_PAGE_DEVICE_KERN_RW);
  }

  /** One call of vm_init_map_contiguous. */
  datatype Region = Region(template: nat, vmBase: nat, physBase: PhysAddr, pageCount: nat) {
    ghost function First(): (r: Vpn) {
      VpnOf(vmBase)
    }

    ghost function End(): (r: nat) {
      VpnOf(vmBase) + pageCount
    }

    ghost predicate Covers(w: Vpn) {
      VpnOf(vmBase) <= w < VpnOf(vmBase) + pageCount
    }

    ghost predicate InAddressSpace() {
      VpnOf(vmBase) + pageCount <= VPN_LIMIT
    }

    ghost function PteFor(w: Vpn): (r: Pte)
      requires Covers(w)
    {
      MakePte(template, FrameAt(physBase, w - VpnOf(vmBase)))
    }
  }

  ghost predicate Disjoint(r: Region, s: Region) {
    forall w: Vpn :: !(r.Covers(w) && s.Covers(w))
  }

  /** What page w translates to after these mapping calls. */
  ghost function Expected(regions: seq<Region>, w: Vpn): (r: Translation) {
    if regions == [] then Fault
    else
      var last := regions[|regions| - 1];
      if last.Covers(w) then Page(last.PteFor(w)) else Expected(regions[..|regions| - 1], w)
  }

  ghost predicate MapsExactly(words: Words, root: PhysAddr, regions: seq<Region>) {
    forall w: Vpn :: InSpace(w) ==> Walk(words, root, w) == Expected(regions, w)
  }

  /** Region r can be mapped after these. */
  ghost predicate Fits(regions: seq<Region>, r: Region) {
    r.InAddressSpace() && forall j :: 0 <= j < |regions| ==> Disjoint(regions[j], r)
  }

  lemma {:induction false} ExpectedFault(regions: seq<Region>, w: Vpn)
    ensures Expected(regions, w) == Fault <==> forall j :: 0 <= j < |regions| ==> !regions[j].Covers(w)
  {
    if regions != [] {
      var rest := regions[..|regions| - 1];
      ExpectedFault(rest, w);
      assert forall j :: 0 <= j < |rest| ==> rest[j] == regions[j];
    }
  }

  /** The pages of a region are all free exactly when it overlaps no region mapped before. */
  lemma FreeIffDisjoint(words: Words, root: PhysAddr, regions: seq<Region>, r: Region)
    requires MapsExactly(words, root, regions) && r.InAddressSpace()
    ensures NoneMapped(words, root, VpnOf(r.vmBase), r.pageCount) <==> Fits(regions, r)
  {
    hide VpnOf, Walk, Expected;
    if Fits(regions, r) {
      forall w: Vpn | InSpace(w) && r.Covers(w)
        ensures Walk(words, root, w) == Fault
      {
        ExpectedFault(regions, w);
        forall j | 0 <= j < |regions|
          ensures !regions[j].Covers(w)
        {
          assert Disjoint(regions[j], r);
        }
      }
    } else {
      var j :| 0 <= j < |regions| && !Disjoint(regions[j], r);
      var w: Vpn :| regions[j].Covers(w) && r.Covers(w);
      ExpectedFault(regions, w);
      assert InSpace(w) && Walk(words, root, w) != Fault;
    }
  }

  lemma OneMoreRegion(before: Words, after: Words, root: PhysAddr, regions: seq<Region>, r: Region)
    requires MapsExactly(before, root, regions)
    requires Mapped(before, after, root, VpnOf(r.vmBase), r.pageCount, r.template, r.physBase)
    ensures MapsExactly(after, root, regions + [r])
  {
    hide VpnOf, Walk, MakePte, FrameAt;
    assert (regions + [r])[..|regions|] == regions;
  }

  /** The linker symbols of kernel/link.ld that the boot code uses. */
  datatype KernelImage = KernelImage(mapStart: nat, textStart: nat, textEnd: nat,
                                     roStart: nat, roEnd: nat, rwStart: nat, rwEnd: nat) {
    /** The sections follow one another, on page boundaries. */
    predicate Linked() {
      && mapStart <= textStart <= textEnd <= roStart <= roEnd <= rwStart <= rwEnd
      && mapStart % PAGE_SIZE == textStart % PAGE_SIZE == textEnd % PAGE_SIZE == 0
      && roStart % PAGE_SIZE == roEnd % PAGE_SIZE == rwStart % PAGE_SIZE == rwEnd % PAGE_SIZE == 0
    }
  }

  /** A section of the kernel image (the KERNEL_SECTION macros, pmap_init.c:171-180). */
  function Section(template: nat, image: KernelImage, kernelBase: PhysAddr, start: nat, end: nat): (r: Region)
    requires image.mapStart <= start <= end
    ensures r.template == template
  {
    var offset := start - image.mapStart;
    Region(template, (VM_KERNEL_BASE_ADDRESS + offset) % TWO_TO_64, (kernelBase + offset) % TWO_TO_64,
        (end - start) / PAGE_SIZE)
  }

  /** Where the physmap starts: whole L1 entries at the end of the address space (pmap_init.c:223-229). */
  function PhysmapVmBase(ramSize: nat): (r: nat) {
    var physmapSize := if ramSize > MMIO_END then ramSize else MMIO_END;
    var l1Count := RoundUp(physmapSize, VM_L1_ENTRY_SIZE) / VM_L1_ENTRY_SIZE;
    (VM_KERNEL_BASE_ADDRESS + VM_L1_ENTRY_SIZE * (PAGE_ENTRY_COUNT - l1Count)) % TWO_TO_64
  }

  /** The five mapping calls of pmap_vm_init (pmap_init.c:191-245). */
  function KernelRegions(image: KernelImage, kernelBase: PhysAddr, ramSize: nat): (r: seq<Region>)
    requires image.Linked()
  {
    [Section(PTE_TEMPLATE_PAGE_NORMAL_KERN_RX, image, kernelBase, image.textStart, image.textEnd),
     Section(PTE_TEMPLATE_PAGE_NORMAL_KERN_RO, image, kernelBase, image.roStart, image.roEnd),
     Section(PTE_TEMPLATE_PAGE_NORMAL_KERN_RW, image, kernelBase, image.rwStart, image.rwEnd),
     Region(PTE_TEMPLATE_PAGE_NORMAL_KERN_RW, PhysmapVmBase(ramSize), 0, RoundUp(ramSize, PAGE_SIZE) / PAGE_SIZE),
     Region(PTE_TEMPLATE_PAGE_DEVICE_KERN_RW, (PhysmapVmBase(ramSize) + MMIO_BASE) % TWO_TO_64, MMIO_BASE,
            RoundUp(MMIO_END - MMIO_BASE, PAGE_SIZE) / PAGE_SIZE)]
  }

  ghost predicate AllFit(regions: seq<Region>) {
    forall k :: 0 <= k < |regions| ==> Fits(regions[..k], regions[k])
  }

  /** The arena can still take the tables of this many mapping calls, whatever they map. */
  predicate ArenaFor(allocationPtr: PhysAddr, calls: nat) {
    allocationPtr % PAGE_SIZE == 0 && allocationPtr + calls * (2 * PAGE_SIZE * VPN_LIMIT) <= FRAME_LIMIT
  }

  /** One mapping call of pmap_vm_init; a false result is a panic. */
  method MapRegion(pmap: Pmap, r: Region, ghost memory: Words, ghost regions: seq<Region>, ghost calls: nat)
    returns (done: bool)
    requires pmap.Ready() && pmap.Tidy() && Template(r.template) && MapsExactly(pmap.words, pmap.tableBase, regions)
    requires calls > 0 && ArenaFor(pmap.allocationPtr, calls)
    requires Untouched(memory, pmap.words, pmap.tableBase, pmap.allocationPtr)
    modifies pmap
    ensures done <==> Fits(regions, r)
    ensures Untouched(memory, pmap.words, pmap.tableBase, pmap.allocationPtr)
    ensures done ==>
              && pmap.Ready() && pmap.Tidy() && MapsExactly(pmap.words, pmap.tableBase, regions + [r])
              && ArenaFor(pmap.allocationPtr, calls - 1)
              && pmap.allocationPtr == pmap.tableBase + |NeededTables(pmap.words, pmap.tableBase)| * PAGE_SIZE
  {
    hide Tree, Template, VpnOf, Mapped, NoneMapped, MapsExactly, Expected, Walk, Untouched, Pmap.Tidy, NeededTables;
    VpnInSpace(r.vmBase);
    ghost var before, arena := pmap.words, pmap.allocationPtr;
    var outcome, _ := pmap.VmInitMapContiguous(r.template, r.vmBase, r.physBase, r.pageCount);
    done := outcome == Done;
    UntouchedStill(memory, before, pmap.words, pmap.tableBase, arena, pmap.allocationPtr, pmap.allocationPtr);
    if r.InAddressSpace() {
      FreeIffDisjoint(before, pmap.tableBase, regions, r);
    }
    if done {
      OneMoreRegion(before, pmap.words, pmap.tableBase, regions, r);
    }
  }

  lemma VpnInSpace(va: nat)
    ensures InSpace(VpnOf(va))
  {
  }

  /**
   * pmap_vm_init up to the switch to the new tables (pmap_init.c:182-245); a false
   * result is a panic. Physical addresses have 40 bits on this platform.
   */
  method PmapVmInit(memory: Words, image: KernelImage, kernelBase: PhysAddr, ramSize: nat,
                    bootstrapPaReserved: PhysAddr)
    returns (done: bool, pmap: Pmap)
    requires image.Linked() && bootstrapPaReserved % PAGE_SIZE == 0 && bootstrapPaReserved < 0x100_0000_0000
    ensures fresh(pmap) && pmap.tableBase == bootstrapPaReserved
    ensures Untouched(memory, pmap.words, pmap.tableBase, pmap.allocationPtr)
    ensures done <==> AllFit(KernelRegions(image, kernelBase, ramSize))
    ensures done ==> pmap.allocationPtr == bootstrapPaReserved + |NeededTables(pmap.words, pmap.tableBase)| * PAGE_SIZE
    ensures done ==>
              && pmap.Ready() && pmap.Tidy() && ArenaFor(pmap.allocationPtr, 0)
              && MapsExactly(pmap.words, pmap.tableBase, KernelRegions(image, kernelBase, ramSize))
  {
    hide Tree, Template, Walk, MapsExactly, Fits, Section, PhysmapVmBase, RoundUp, VpnOf, ArenaFor, AllFit, Untouched;
    hide Pmap.Tidy, NeededTables;
    pmap := new Pmap(memory, bootstrapPaReserved);
    KernelTemplates();
    StartEmpty(pmap.words, pmap.tableBase, pmap.allocationPtr);
    ghost var regions := KernelRegions(image, kernelBase, ramSize);
    Prefixes(regions);
    var text := Section(PTE_TEMPLATE_PAGE_NORMAL_KERN_RX, image, kernelBase, image.textStart, image.textEnd);
    done := MapRegion(pmap, text, memory, [], 5);
    if done {
      var roData := Section(PTE_TEMPLATE_PAGE_NORMAL_KERN_RO, image, kernelBase, image.roStart, image.roEnd);
      done := MapRegion(pmap, roData, memory, regions[..1], 4);
    }
    if done {
      var rwData := Section(PTE_TEMPLATE_PAGE_NORMAL_KERN_RW, image, kernelBase, image.rwStart, image.rwEnd);
      done := MapRegion(pmap, rwData, memory, regions[..2], 3);
    }
    if done {
      var base := PhysmapVmBase(ramSize);
      var ram := Region(PTE_TEMPLATE_PAGE_NORMAL_KERN_RW, base, 0, RoundUp(ramSize, PAGE_SIZE) / PAGE_SIZE);
      done := MapRegion(pmap, ram, memory, regions[..3], 2);
    }
    if done {
      var base := PhysmapVmBase(ramSize);
      var mmio := Region(PTE_TEMPLATE_PAGE_DEVICE_KERN_RW, (base + MMIO_BASE) % TWO_TO_64, MMIO_BASE,
                         RoundUp(MMIO_END - MMIO_BASE, PAGE_SIZE) / PAGE_SIZE);
      done := MapRegion(pmap, mmio, memory, regions[..4], 1);
    }
  }

  lemma StartEmpty(words: Words, root: PhysAddr, allocationPtr: PhysAddr)
    requires NoneMapped(words, root, 0, VPN_LIMIT)
    requires allocationPtr % PAGE_SIZE == 0 && allocationPtr <= 0x100_0000_0000
    ensures MapsExactly(words, root, []) && ArenaFor(allocationPtr, 5)
  {
    hide Walk;
  }

  /** The calls before call k of five. */
  lemma Prefixes(regions: seq<Region>)
    requires |regions| == 5
    ensures regions[..1] == [] + [regions[0]] && regions[..2] == regions[..1] + [regions[1]]
    ensures regions[..3] == regions[..2] + [regions[2]] && regions[..4] == regions[..3] + [regions[3]]
    ensures regions == regions[..4] + [regions[4]]
    ensures AllFit(regions) <==>
              && Fits([], regions[0]) && Fits(regions[..1], regions[1]) && Fits(regions[..2], regions[2])
              && Fits(regions[..3], regions[3]) && Fits(regions[..4], regions[4])
  {
    hide Fits;
    assert regions[..0] == [];
  }

  /** The memory the linker gives the kernel lies below any physmap of at most 4 GB. */
  predicate BelowPhysmap(image: KernelImage)
    requires image.Linked()
  {
    image.rwEnd - image.mapStart <= 0x7F_0000_0000
  }

  lemma SectionVpn(offset: nat)
    requires offset < 0x80_0000_0000
    ensures VpnOf((VM_KERNEL_BASE_ADDRESS + offset) % TWO_TO_64) == offset / PAGE_SIZE
  {
    var va := VM_KERNEL_BASE_ADDRESS + offset;
    RemainderIs(va / PAGE_SIZE, VPN_LIMIT, 0x1_FFFF_FF, offset / PAGE_SIZE);
  }

  /** The L1 entries of the physmap: whole gigabytes, as many as RAM and the I/O region need. */
  function PhysmapL1Count(ramSize: nat): (count: nat)
    requires ramSize < TWO_TO_32
    ensures 1 <= count <= 4 && ramSize <= count * VM_L1_ENTRY_SIZE
  {
    RoundUp(if ramSize > MMIO_END then ramSize else MMIO_END, VM_L1_ENTRY_SIZE) / VM_L1_ENTRY_SIZE
  }

  /**
   * The physmap ends the address space: with RAM up to the end of the I/O region it starts that
   * far before the end, and in general at the last L1 entry from which all of RAM fits.
   */
  lemma PhysmapEndsAddressSpace(ramSize: nat)
    requires ramSize <= 0x80_0000_0000
    ensures ramSize <= MMIO_END ==> PhysmapVmBase(ramSize) + MMIO_END == TWO_TO_64
    ensures var base, needed := PhysmapVmBase(ramSize), if ramSize > MMIO_END then ramSize else MMIO_END;
            base % VM_L1_ENTRY_SIZE == 0 && base + needed <= TWO_TO_64 < base + VM_L1_ENTRY_SIZE + needed
  {
    hide RoundUp;
    var count := WholeL1Entries(if ramSize > MMIO_END then ramSize else MMIO_END);
    assert VM_KERNEL_BASE_ADDRESS + VM_L1_ENTRY_SIZE * (PAGE_ENTRY_COUNT - count)
        == TWO_TO_64 - VM_L1_ENTRY_SIZE * count;
    assert PhysmapVmBase(ramSize) == TWO_TO_64 - VM_L1_ENTRY_SIZE * count;
    assert PhysmapVmBase(ramSize) == VM_L1_ENTRY_SIZE * (0x4_0000_0000 - count);
    WholeEntries(0x4_0000_0000 - count);
  }

  lemma WholeEntries(n: nat)
    ensures VM_L1_ENTRY_SIZE * n % VM_L1_ENTRY_SIZE == 0
  {
  }

  lemma WholeL1Entries(needed: nat) returns (count: nat)
    requires MMIO_END <= needed <= 0x80_0000_0000
    ensures RoundUp(needed, VM_L1_ENTRY_SIZE) / VM_L1_ENTRY_SIZE == count
    ensures 1 <= count <= PAGE_ENTRY_COUNT
    ensures VM_L1_ENTRY_SIZE * count - VM_L1_ENTRY_SIZE < needed <= VM_L1_ENTRY_SIZE * count
  {
    count := (needed + VM_L1_ENTRY_SIZE - 1) / VM_L1_ENTRY_SIZE;
  }

  lemma PhysmapBase(ramSize: nat)
    requires ramSize < TWO_TO_32
    ensures var count := PhysmapL1Count(ramSize);
            && PhysmapVmBase(ramSize) == VM_KERNEL_BASE_ADDRESS + (PAGE_ENTRY_COUNT - count) * VM_L1_ENTRY_SIZE
            && (forall pa: nat :: pa < count * VM_L1_ENTRY_SIZE ==>
                  && PmapPaToKva(PhysmapVmBase(ramSize), pa) == PhysmapVmBase(ramSize) + pa
                  && VpnOf(PhysmapVmBase(ramSize) + pa) == VPN_LIMIT - count * 0x4_0000 + pa / PAGE_SIZE)
  {
    var count := PhysmapL1Count(ramSize);
    forall pa: nat | pa < count * VM_L1_ENTRY_SIZE
      ensures VpnOf(PhysmapVmBase(ramSize) + pa) == VPN_LIMIT - count * 0x4_0000 + pa / PAGE_SIZE
    {
      SectionVpn((PAGE_ENTRY_COUNT - count) * VM_L1_ENTRY_SIZE + pa);
    }
  }

  /** pmap_pa_to_kva (pmap.c:30-32), in 64 bits. */
  function PmapPaToKva(physmapVmBase: nat, pa: PhysAddr): (r: nat) {
    (physmapVmBase + pa) % TWO_TO_64
  }

  datatype Required = Granted(pa: PhysAddr) | Panicked

  /** pmap_physmap_kva_to_pa (pmap.c:34-42). */
  function PmapPhysmapKvaToPa(physmapVmBase: nat, kva: nat): (r: Required) {
    if kva >= physmapVmBase then Granted(kva - physmapVmBase) else Panicked
  }

  /** Where the regions lie in the address space, by page. */
  lemma KernelLayout(image: KernelImage, kernelBase: PhysAddr, ramSize: nat)
    requires image.Linked() && BelowPhysmap(image) && ramSize < TWO_TO_32
    ensures var regions, count := KernelRegions(image, kernelBase, ramSize), PhysmapL1Count(ramSize);
            && regions[0].First() == (image.textStart - image.mapStart) / PAGE_SIZE
            && regions[0].End() == (image.textEnd - image.mapStart) / PAGE_SIZE
            && regions[1].First() == (image.roStart - image.mapStart) / PAGE_SIZE
            && regions[1].End() == (image.roEnd - image.mapStart) / PAGE_SIZE
            && regions[2].First() == (image.rwStart - image.mapStart) / PAGE_SIZE
            && regions[2].End() == (image.rwEnd - image.mapStart) / PAGE_SIZE
            && regions[3].First() == VPN_LIMIT - count * 0x4_0000
            && regions[3].pageCount == RoundUp(ramSize, PAGE_SIZE) / PAGE_SIZE <= count * 0x4_0000
            && regions[4].First() == VPN_LIMIT - count * 0x4_0000 + 0x3_F000
            && regions[4].pageCount == 0x1000
  {
    hide VpnOf, PhysmapVmBase, Section, RoundUp, PhysmapL1Count, PmapPaToKva;
    SectionLayout(PTE_TEMPLATE_PAGE_NORMAL_KERN_RX, image, kernelBase, image.textStart, image.textEnd);
    SectionLayout(PTE_TEMPLATE_PAGE_NORMAL_KERN_RO, image, kernelBase, image.roStart, image.roEnd);
    SectionLayout(PTE_TEMPLATE_PAGE_NORMAL_KERN_RW, image, kernelBase, image.rwStart, image.rwEnd);
    PhysmapLayout(ramSize);
  }

  lemma SectionLayout(template: nat, image: KernelImage, kernelBase: PhysAddr, start: nat, end: nat)
    requires image.mapStart <= start <= end && end - image.mapStart < 0x80_0000_0000
    requires image.mapStart % PAGE_SIZE == start % PAGE_SIZE == end % PAGE_SIZE == 0
    ensures var r := Section(template, image, kernelBase, start, end);
            && r.First() == (start - image.mapStart) / PAGE_SIZE && r.End() == (end - image.mapStart) / PAGE_SIZE
            && r.physBase == (kernelBase + (start - image.mapStart)) % TWO_TO_64
            && start + r.pageCount * PAGE_SIZE == end
  {
    hide VpnOf;
    SectionVpn(start - image.mapStart);
  }

  lemma PhysmapLayout(ramSize: nat)
    requires ramSize < TWO_TO_32
    ensures var base, first := PhysmapVmBase(ramSize), VPN_LIMIT - PhysmapL1Count(ramSize) * 0x4_0000;
            && VpnOf(base) == first && VpnOf((base + MMIO_BASE) % TWO_TO_64) == first + 0x3_F000
            && RoundUp(ramSize, PAGE_SIZE) / PAGE_SIZE <= PhysmapL1Count(ramSize) * 0x4_0000
            && RoundUp(MMIO_END - MMIO_BASE, PAGE_SIZE) / PAGE_SIZE == 0x1000
  {
    hide VpnOf, PhysmapVmBase;
    PhysmapBase(ramSize);
    var base := PhysmapVmBase(ramSize);
    assert PmapPaToKva(base, 0) == base + 0 && PmapPaToKva(base, MMIO_BASE) == base + MMIO_BASE;
  }

  lemma DisjointIntervals(r: Region, s: Region)
    ensures Disjoint(r, s) <==>
              r.pageCount == 0 || s.pageCount == 0 || r.End() <= s.First() || s.End() <= r.First()
  {
    hide VpnOf;
    var w := if r.First() <= s.First() then s.First() else r.First();
    if Disjoint(r, s) {
      assert !(r.Covers(w) && s.Covers(w));
    }
  }

  /** The boot maps everything without a panic exactly when RAM, in whole pages, ends below the I/O region. */
  lemma BootSucceeds(image: KernelImage, kernelBase: PhysAddr, ramSize: nat)
    requires image.Linked() && BelowPhysmap(image) && ramSize < TWO_TO_32
    ensures AllFit(KernelRegions(image, kernelBase, ramSize)) <==> RoundUp(ramSize, PAGE_SIZE) <= MMIO_BASE
  {
    hide VpnOf, PhysmapVmBase, Section, Disjoint;
    var r := KernelRegions(image, kernelBase, ramSize);
    KernelLayout(image, kernelBase, ramSize);
    Prefixes(r);
    forall j, k | 0 <= j < k < 5
      ensures Disjoint(r[j], r[k]) <==>
                r[j].pageCount == 0 || r[k].pageCount == 0 || r[j].End() <= r[k].First() || r[k].End() <= r[j].First()
    {
      DisjointIntervals(r[j], r[k]);
    }
  }

  /** The tables take a virtual address to this physical address, with these attributes. */
  ghost predicate TranslatesTo(words: Words, root: PhysAddr, va: nat, pa: PhysAddr, template: nat) {
    var frame := pa - pa % PAGE_SIZE;
    && Walk(words, root, VpnOf(va)) == Page(MakePte(template, frame))
    && Output(MakePte(template, frame)) + va % PAGE_SIZE == pa
  }

  /** A page that one of the regions covers, and only one. */
  lemma ExpectedOf(regions: seq<Region>, k: nat, w: Vpn)
    requires |regions| == 5 && k < 5 && AllFit(regions) && regions[k].Covers(w)
    ensures Expected(regions, w) == Page(regions[k].PteFor(w))
  {
    hide VpnOf, MakePte, FrameAt;
    forall j | 0 <= j < 5 && j != k
      ensures !regions[j].Covers(w)
    {
      if j < k {
        assert Fits(regions[..k], regions[k]) && Disjoint(regions[..k][j], regions[k]);
      } else {
        assert Fits(regions[..j], regions[j]) && Disjoint(regions[..j][k], regions[j]);
      }
    }
    ExpectedUnique(regions, k, w);
  }

  lemma {:induction false} ExpectedUnique(regions: seq<Region>, k: nat, w: Vpn)
    requires k < |regions| && regions[k].Covers(w)
    requires forall j :: 0 <= j < |regions| && j != k ==> !regions[j].Covers(w)
    ensures Expected(regions, w) == Page(regions[k].PteFor(w))
  {
    hide VpnOf, MakePte, FrameAt;
    if k < |regions| - 1 {
      ExpectedUnique(regions[..|regions| - 1], k, w);
    }
  }

  /** Any address of a mapped region translates with its offset in the region. */
  lemma RegionTranslates(words: Words, root: PhysAddr, regions: seq<Region>, k: nat, va: nat, i: nat)
    requires |regions| == 5 && k < 5 && AllFit(regions) && MapsExactly(words, root, regions)
    requires Template(regions[k].template) && regions[k].physBase % PAGE_SIZE == 0
    requires i < regions[k].pageCount && VpnOf(va) == regions[k].First() + i
    requires regions[k].physBase + i * PAGE_SIZE < FRAME_LIMIT
    ensures TranslatesTo(words, root, va, regions[k].physBase + i * PAGE_SIZE + va % PAGE_SIZE, regions[k].template)
  {
    hide VpnOf, MakePte, Walk, Template, Output, Expected, AllFit, Frame, FrameAt, MapsExactly, InSpace, Valid,
         IsTableEntry, PteToPhysAddr;
    var r, w := regions[k], VpnOf(va);
    VpnInSpace(va);
    assert r.Covers(w);
    ExpectedOf(regions, k, w);
    WalkIsExpected(words, root, regions, w);
    FrameOfPage(r.physBase, i, va % PAGE_SIZE);
    EntryRoundTrip(r.template, r.physBase + i * PAGE_SIZE);
  }

  lemma WalkIsExpected(words: Words, root: PhysAddr, regions: seq<Region>, w: Vpn)
    requires MapsExactly(words, root, regions) && InSpace(w)
    ensures Walk(words, root, w) == Expected(regions, w)
  {
  }

  lemma FrameOfPage(physBase: PhysAddr, i: nat, offset: nat)
    requires physBase % PAGE_SIZE == 0 && physBase + i * PAGE_SIZE < FRAME_LIMIT && offset < PAGE_SIZE
    ensures var frame := physBase + i * PAGE_SIZE;
            && FrameAt(physBase, i) == frame && Frame(frame)
            && (frame + offset) - (frame + offset) % PAGE_SIZE == frame
  {
  }

  /** The tables are those of a boot that did not panic. */
  ghost predicate Booted(words: Words, root: PhysAddr, image: KernelImage, kernelBase: PhysAddr, ramSize: nat) {
    && image.Linked() && BelowPhysmap(image) && RoundUp(ramSize, PAGE_SIZE) <= MMIO_BASE
    && MapsExactly(words, root, KernelRegions(image, kernelBase, ramSize))
  }

  lemma PhysmapRegions(image: KernelImage, kernelBase: PhysAddr, ramSize: nat)
    requires image.Linked()
    ensures var regions := KernelRegions(image, kernelBase, ramSize);
            && |regions| == 5
            && regions[3].template == PTE_TEMPLATE_PAGE_NORMAL_KERN_RW && regions[3].physBase == 0
            && regions[4].template == PTE_TEMPLATE_PAGE_DEVICE_KERN_RW && regions[4].physBase == MMIO_BASE
  {
    hide Section, PhysmapVmBase, RoundUp;
  }

  /** A page-aligned distance keeps the offset in the page. */
  lemma SameOffset(base: nat, start: nat, pa: nat)
    requires base % PAGE_SIZE == 0 && start % PAGE_SIZE == 0 && start <= pa
    ensures start + (pa - start) / PAGE_SIZE * PAGE_SIZE + (base + pa) % PAGE_SIZE == pa
  {
    assert (base + pa) % PAGE_SIZE == pa % PAGE_SIZE;
  }

  /** Where the pages of the physmap lie, as KernelLayout and PhysmapBase say. */
  lemma PhysmapPage(image: KernelImage, kernelBase: PhysAddr, ramSize: nat, pa: PhysAddr)
    requires image.Linked() && BelowPhysmap(image) && ramSize < TWO_TO_32
    ensures var regions, kva := KernelRegions(image, kernelBase, ramSize), PhysmapVmBase(ramSize) + pa;
            && |regions| == 5 && PhysmapVmBase(ramSize) % PAGE_SIZE == 0
            && (pa < RoundUp(ramSize, PAGE_SIZE) ==>
                  pa / PAGE_SIZE < regions[3].pageCount && VpnOf(kva) == regions[3].First() + pa / PAGE_SIZE)
            && (MMIO_BASE <= pa < MMIO_END ==>
                  && (pa - MMIO_BASE) / PAGE_SIZE < regions[4].pageCount
                  && VpnOf(kva) == regions[4].First() + (pa - MMIO_BASE) / PAGE_SIZE)
  {
    hide VpnOf, PhysmapVmBase, Section, KernelRegions;
    KernelLayout(image, kernelBase, ramSize);
    PhysmapRegions(image, kernelBase, ramSize);
    PhysmapBase(ramSize);
    if pa < PhysmapL1Count(ramSize) * VM_L1_ENTRY_SIZE {
      assert PmapPaToKva(PhysmapVmBase(ramSize), pa) == PhysmapVmBase(ramSize) + pa;
    }
  }

  lemma RamTranslates(words: Words, root: PhysAddr, image: KernelImage, kernelBase: PhysAddr, ramSize: nat,
                      pa: PhysAddr)
    requires Booted(words, root, image, kernelBase, ramSize) && pa < RoundUp(ramSize, PAGE_SIZE)
    ensures TranslatesTo(words, root, PhysmapVmBase(ramSize) + pa, pa, PTE_TEMPLATE_PAGE_NORMAL_KERN_RW)
  {
    hide VpnOf, Walk, PhysmapVmBase, MakePte, Output, Template, AllFit, MapsExactly, TranslatesTo, KernelRegions,
         RoundUp;
    RamIsSmall(ramSize);
    BootSucceeds(image, kernelBase, ramSize);
    PhysmapRegions(image, kernelBase, ramSize);
    PhysmapPage(image, kernelBase, ramSize, pa);
    KernelTemplates();
    SameOffset(PhysmapVmBase(ramSize), 0, pa);
    RegionTranslates(words, root, KernelRegions(image, kernelBase, ramSize), 3, PhysmapVmBase(ramSize) + pa,
                     pa / PAGE_SIZE);
  }

  lemma RamIsSmall(ramSize: nat)
    ensures RoundUp(ramSize, PAGE_SIZE) <= MMIO_BASE ==> ramSize < TWO_TO_32
  {
  }

  lemma IoTranslates(words: Words, root: PhysAddr, image: KernelImage, kernelBase: PhysAddr, ramSize: nat, pa: PhysAddr)
    requires Booted(words, root, image, kernelBase, ramSize) && MMIO_BASE <= pa < MMIO_END
    ensures TranslatesTo(words, root, PhysmapVmBase(ramSize) + pa, pa, PTE_TEMPLATE_PAGE_DEVICE_KERN_RW)
  {
    hide VpnOf, Walk, PhysmapVmBase, MakePte, Output, Template, AllFit, MapsExactly, TranslatesTo, KernelRegions,
         RoundUp;
    RamIsSmall(ramSize);
    BootSucceeds(image, kernelBase, ramSize);
    PhysmapRegions(image, kernelBase, ramSize);
    PhysmapPage(image, kernelBase, ramSize, pa);
    KernelTemplates();
    SameOffset(PhysmapVmBase(ramSize), MMIO_BASE, pa);
    RegionTranslates(words, root, KernelRegions(image, kernelBase, ramSize), 4, PhysmapVmBase(ramSize) + pa,
                     (pa - MMIO_BASE) / PAGE_SIZE);
  }

  lemma GapFaults(words: Words, root: PhysAddr, image: KernelImage, kernelBase: PhysAddr, ramSize: nat, pa: PhysAddr)
    requires Booted(words, root, image, kernelBase, ramSize) && RoundUp(ramSize, PAGE_SIZE) <= pa < MMIO_BASE
    ensures Walk(words, root, VpnOf(PhysmapVmBase(ramSize) + pa)) == Fault
  {
    hide VpnOf, Walk, Section, PhysmapVmBase, Expected;
    KernelLayout(image, kernelBase, ramSize);
    PhysmapBase(ramSize);
    assert PmapPaToKva(PhysmapVmBase(ramSize), pa) == PhysmapVmBase(ramSize) + pa;
    VpnInSpace(PhysmapVmBase(ramSize) + pa);
    ExpectedFault(KernelRegions(image, kernelBase, ramSize), VpnOf(PhysmapVmBase(ramSize) + pa));
  }

  /**
   * The physmap is the identity on RAM and the I/O region: pmap_pa_to_kva(pa) translates
   * to pa, pmap_physmap_kva_to_pa takes it back, and the rest of the physmap is unmapped.
   */
  lemma PhysmapIsIdentity(words: Words, root: PhysAddr, image: KernelImage, kernelBase: PhysAddr, ramSize: nat,
                          pa: PhysAddr)
    requires Booted(words, root, image, kernelBase, ramSize) && pa < MMIO_END
    ensures var kva := PmapPaToKva(PhysmapVmBase(ramSize), pa);
            && PmapPhysmapKvaToPa(PhysmapVmBase(ramSize), kva) == Granted(pa)
            && (if pa < RoundUp(ramSize, PAGE_SIZE) then
                  TranslatesTo(words, root, kva, pa, PTE_TEMPLATE_PAGE_NORMAL_KERN_RW)
                else if MMIO_BASE <= pa then
                  TranslatesTo(words, root, kva, pa, PTE_TEMPLATE_PAGE_DEVICE_KERN_RW)
                else
                  Walk(words, root, VpnOf(kva)) == Fault)
  {
    hide VpnOf, Walk, PhysmapVmBase, TranslatesTo;
    PhysmapBase(ramSize);
    if pa < RoundUp(ramSize, PAGE_SIZE) {
      RamTranslates(words, root, image, kernelBase, ramSize, pa);
    } else if MMIO_BASE <= pa {
      IoTranslates(words, root, image, kernelBase, ramSize, pa);
    } else {
      GapFaults(words, root, image, kernelBase, ramSize, pa);
    }
  }

  /** The kernel's own addresses: text, read-only data and writable data, each with its attributes. */
  lemma KernelImageIsMapped(words: Words, root: PhysAddr, image: KernelImage, kernelBase: PhysAddr, ramSize: nat,
                            address: nat)
    requires Booted(words, root, image, kernelBase, ramSize) && image.mapStart == VM_KERNEL_BASE_ADDRESS
    requires kernelBase % PAGE_SIZE == 0 && kernelBase < 0x100_0000_0000
    ensures image.textStart <= address < image.textEnd ==>
              TranslatesTo(words, root, address, kernelBase + (address - image.mapStart),
                  PTE_TEMPLATE_PAGE_NORMAL_KERN_RX)
    ensures image.roStart <= address < image.roEnd ==>
              TranslatesTo(words, root, address, kernelBase + (address - image.mapStart),
                  PTE_TEMPLATE_PAGE_NORMAL_KERN_RO)
    ensures image.rwStart <= address < image.rwEnd ==>
              TranslatesTo(words, root, address, kernelBase + (address - image.mapStart),
                  PTE_TEMPLATE_PAGE_NORMAL_KERN_RW)
  {
    hide VpnOf, Walk, Section, PhysmapVmBase, MakePte, Output, Template, AllFit, MapsExactly, TranslatesTo;
    BootSucceeds(image, kernelBase, ramSize);
    KernelTemplates();
    SectionTranslates(words, root, image, kernelBase, ramSize, address, 0, image.textStart, image.textEnd);
    SectionTranslates(words, root, image, kernelBase, ramSize, address, 1, image.roStart, image.roEnd);
    SectionTranslates(words, root, image, kernelBase, ramSize, address, 2, image.rwStart, image.rwEnd);
  }

  lemma SectionTranslates(words: Words, root: PhysAddr, image: KernelImage, kernelBase: PhysAddr, ramSize: nat,
                          address: nat, k: nat, start: nat, end: nat)
    requires image.Linked() && image.mapStart == VM_KERNEL_BASE_ADDRESS
    requires kernelBase % PAGE_SIZE == 0 && kernelBase < 0x100_0000_0000 && k < 3
    requires image.mapStart <= start <= end < image.mapStart + 0x80_0000_0000
    requires start % PAGE_SIZE == end % PAGE_SIZE == 0
    requires var regions := KernelRegions(image, kernelBase, ramSize);
             && AllFit(regions) && MapsExactly(words, root, regions) && Template(regions[k].template)
             && regions[k] == Section(regions[k].template, image, kernelBase, start, end)
    ensures start <= address < end ==>
              TranslatesTo(words, root, address, kernelBase + (address - image.mapStart),
                           KernelRegions(image, kernelBase, ramSize)[k].template)
  {
    hide VpnOf, Walk, Section, PhysmapVmBase, MakePte, Output, Template, AllFit, MapsExactly, TranslatesTo;
    var regions := KernelRegions(image, kernelBase, ramSize);
    if start <= address < end {
      SectionPage(regions[k].template, image, kernelBase, start, end, address);
      RegionTranslates(words, root, regions, k, address, (address - start) / PAGE_SIZE);
    }
  }

  /** The page of an address in a section, counted from the section's start, and its frame. */
  lemma SectionPage(template: nat, image: KernelImage, kernelBase: PhysAddr, start: nat, end: nat, address: nat)
    requires image.mapStart == VM_KERNEL_BASE_ADDRESS <= start <= address < end < image.mapStart + 0x80_0000_0000
    requires start % PAGE_SIZE == end % PAGE_SIZE == 0
    requires kernelBase % PAGE_SIZE == 0 && kernelBase < 0x100_0000_0000
    ensures var r, i := Section(template, image, kernelBase, start, end), (address - start) / PAGE_SIZE;
            && i < r.pageCount && VpnOf(address) == r.First() + i && r.physBase % PAGE_SIZE == 0
            && r.physBase + i * PAGE_SIZE < FRAME_LIMIT
            && r.physBase + i * PAGE_SIZE + address % PAGE_SIZE == kernelBase + (address - image.mapStart)
  {
    hide VpnOf, Section;
    SectionLayout(template, image, kernelBase, start, end);
    SectionVpn(address - image.mapStart);
    PagesBetween(image.mapStart, start, address);
  }

  lemma PagesBetween(base: nat, start: nat, address: nat)
    requires base <= start <= address && base % PAGE_SIZE == start % PAGE_SIZE == 0
    ensures (address - base) / PAGE_SIZE == (start - base) / PAGE_SIZE + (address - start) / PAGE_SIZE
    ensures (address - start) / PAGE_SIZE * PAGE_SIZE + address % PAGE_SIZE == address - start
  {
  }

  /** pmap_physmap_kva_to_pa and pmap_pa_to_kva undo each other, on every address it does not refuse. */
  lemma PhysmapRoundTrip(physmapVmBase: nat, kva: nat)
    requires physmapVmBase < TWO_TO_64 && kva < TWO_TO_64
    ensures match PmapPhysmapKvaToPa(physmapVmBase, kva)
            case Granted(pa) => kva >= physmapVmBase && PmapPaToKva(physmapVmBase, pa) == kva
            case Panicked => forall pa: nat :: physmapVmBase + pa < TWO_TO_64 ==> PmapPaToKva(physmapVmBase, pa) != kva
  {
  }

  /**
   * Whatever calls are made after init, the allocator never hands out a page of the kernel's
   * tables and leaves its type alone: pmap_vm_init passes the arena pointer as the end of the
   * reserved memory (pmap_init.c:261-270). The type is not PAGE_TABLE, as init does not set it.
   */
  lemma TablesStayReserved(words: Words, owner: Owner, root: PhysAddr, worlds: seq<World>, boot: BootMemory,
                           p: PhysAddr)
    requires Tree(words, owner, root, boot.bootstrapReserved) && ArenaFor(boot.bootstrapReserved, 0)
    requires RunFromInit(worlds, boot) && NodeAt(owner, p) != Unused
    ensures var w := worlds[|worlds| - 1];
            && !InCirculation(w, p / PAGE_SIZE) && p / PAGE_SIZE < |w.pfa.metadata|
            && w.pfa.metadata[p / PAGE_SIZE]
               == if boot.IsText(p / PAGE_SIZE) then PAGE_TYPE_KERNEL_TEXT else PAGE_TYPE_KERNEL_DATA
  {
    hide InCirculation, RequiredBytes, EntryFits, Slot, Run, AfterInit;
    FitsAfterInit(worlds, boot);
    assert boot.IsReserved(p / PAGE_SIZE);
    ReservedPagesKeepTheirType(worlds, boot, p / PAGE_SIZE);
  }

  lemma FitsAfterInit(worlds: seq<World>, boot: BootMemory)
    requires RunFromInit(worlds, boot)
    ensures |worlds| > 0 && boot.Fits()
  {
  }

  /** No page that holds a table is ever free or held, whatever calls are made after init. */
  ghost predicate NeverHandsOut(owner: Owner, boot: BootMemory) {
    forall worlds, p: PhysAddr :: RunFromInit(worlds, boot) && NodeAt(owner, p) != Unused ==>
      !InCirculation(worlds[|worlds| - 1], p / PAGE_SIZE)
  }

  lemma TablesAreNeverHandedOut(words: Words, owner: Owner, root: PhysAddr, boot: BootMemory)
    requires Tree(words, owner, root, boot.bootstrapReserved) && ArenaFor(boot.bootstrapReserved, 0)
    ensures NeverHandsOut(owner, boot)
  {
    hide Tree, AfterInit, Step, InCirculation;
    forall worlds, p: PhysAddr | RunFromInit(worlds, boot) && NodeAt(owner, p) != Unused
      ensures !InCirculation(worlds[|worlds| - 1], p / PAGE_SIZE)
    {
      TablesStayReserved(words, owner, root, worlds, boot, p);
    }
  }

  /** The arguments that pmap_vm_init gives to pmap_pfa_init (pmap_init.c:261-270). */
  function PfaArguments(image: KernelImage, kernelBase: PhysAddr, ramSize: nat, allocationPtr: PhysAddr)
    : (boot: BootMemory)
    requires image.Linked()
  {
    BootMemory(ramSize, kernelBase + (image.textStart - image.mapStart), image.textEnd - image.textStart,
               kernelBase + (image.roStart - image.mapStart),
               (image.roEnd - image.roStart) + (image.rwEnd - image.rwStart), allocationPtr)
  }

  /** The page that an address translates to, if any. */
  ghost predicate OnPage(words: Words, root: PhysAddr, address: nat, p: nat) {
    match Walk(words, root, VpnOf(address))
    case Page(e) => Output(e) / PAGE_SIZE == p
    case _ => false
  }

  ghost predicate HasType(words: Words, root: PhysAddr, m: seq<Metadata>, address: nat, pageType: Metadata) {
    exists p: nat :: OnPage(words, root, address, p) && p < |m| && m[p] == pageType
  }

  /** The addresses [start, end) all translate to pages of this type. */
  ghost predicate TypedAs(words: Words, root: PhysAddr, m: seq<Metadata>, start: nat, end: nat, pageType: Metadata) {
    forall address :: start <= address < end ==> HasType(words, root, m, address, pageType)
  }

  /** Kernel text is typed as text; all else that was in use before the allocator, as data. */
  ghost predicate ImageIsTyped(words: Words, root: PhysAddr, m: seq<Metadata>, image: KernelImage,
                               allocationPtr: PhysAddr)
    requires image.Linked()
  {
    && TypedAs(words, root, m, image.textStart, image.textEnd, PAGE_TYPE_KERNEL_TEXT)
    && (image.roEnd == image.rwStart ==>
          TypedAs(words, root, m, image.roStart, image.rwEnd, PAGE_TYPE_KERNEL_DATA))
    && (forall p: nat {:trigger m[p]} :: p < allocationPtr / PAGE_SIZE && p < |m| ==>
          || m[p] == PAGE_TYPE_KERNEL_DATA
          || exists address :: image.textStart <= address < image.textEnd && OnPage(words, root, address, p))
    && allocationPtr / PAGE_SIZE <= |m|
  }

  /** The page of an address in a section. */
  lemma SectionOnPage(words: Words, root: PhysAddr, image: KernelImage, kernelBase: PhysAddr, ramSize: nat,
                      k: nat, start: nat, end: nat, address: nat)
    requires image.Linked() && image.mapStart == VM_KERNEL_BASE_ADDRESS
    requires kernelBase % PAGE_SIZE == 0 && kernelBase < 0x100_0000_0000 && k < 3
    requires image.mapStart <= start <= address < end < image.mapStart + 0x80_0000_0000
    requires start % PAGE_SIZE == end % PAGE_SIZE == 0
    requires var regions := KernelRegions(image, kernelBase, ramSize);
             && AllFit(regions) && MapsExactly(words, root, regions) && Template(regions[k].template)
             && regions[k] == Section(regions[k].template, image, kernelBase, start, end)
    ensures OnPage(words, root, address, (kernelBase + (address - image.mapStart)) / PAGE_SIZE)
  {
    hide VpnOf, Walk, Section, PhysmapVmBase, MakePte, Output, Template, AllFit, MapsExactly;
    SectionTranslates(words, root, image, kernelBase, ramSize, address, k, start, end);
  }

  /** The pages of a page-aligned range. */
  lemma RangePages(base: nat, size: nat, a: nat)
    requires base % PAGE_SIZE == size % PAGE_SIZE == 0
    ensures base <= a < base + size <==> base / PAGE_SIZE <= a / PAGE_SIZE < base / PAGE_SIZE + SizeToPageCount(size)
  {
  }

  /** The pages of the sections, as init is told about them. */
  lemma SectionPages(image: KernelImage, kernelBase: PhysAddr, ramSize: nat, allocationPtr: PhysAddr, address: nat)
    requires image.Linked() && kernelBase % PAGE_SIZE == 0 && address >= image.mapStart
    ensures var boot := PfaArguments(image, kernelBase, ramSize, allocationPtr);
            var p := (kernelBase + (address - image.mapStart)) / PAGE_SIZE;
            && (image.textStart <= address < image.textEnd <==> boot.IsText(p))
            && (image.roEnd == image.rwStart ==> (image.roStart <= address < image.rwEnd <==> boot.IsData(p)))
  {
    hide SizeToPageCount;
    var a := kernelBase + (address - image.mapStart);
    var text, ro := kernelBase + (image.textStart - image.mapStart), kernelBase + (image.roStart - image.mapStart);
    AlignedSum(kernelBase, image.textStart, image.mapStart);
    AlignedSum(kernelBase, image.roStart, image.mapStart);
    AlignedSum(0, image.textEnd, image.textStart);
    AlignedSum(0, image.roEnd, image.roStart);
    AlignedSum(image.roEnd - image.roStart, image.rwEnd, image.rwStart);
    RangePages(text, image.textEnd - image.textStart, a);
    RangePages(ro, (image.roEnd - image.roStart) + (image.rwEnd - image.rwStart), a);
  }

  lemma AlignedSum(base: nat, end: nat, start: nat)
    requires base % PAGE_SIZE == end % PAGE_SIZE == start % PAGE_SIZE == 0 && start <= end
    ensures (base + (end - start)) % PAGE_SIZE == 0
  {
  }

  /** A page of the text is that of one of its addresses. */
  lemma TextPage(image: KernelImage, kernelBase: PhysAddr, ramSize: nat, allocationPtr: PhysAddr, p: nat)
    returns (address: nat)
    requires image.Linked() && kernelBase % PAGE_SIZE == 0
    requires PfaArguments(image, kernelBase, ramSize, allocationPtr).IsText(p)
    ensures image.textStart <= address < image.textEnd
    ensures (kernelBase + (address - image.mapStart)) / PAGE_SIZE == p
  {
    var base := kernelBase + (image.textStart - image.mapStart);
    AlignedSum(kernelBase, image.textStart, image.mapStart);
    address := image.textStart + (p * PAGE_SIZE - base);
    SectionPages(image, kernelBase, ramSize, allocationPtr, address);
  }

  lemma FitsBelow(image: KernelImage, kernelBase: PhysAddr, ramSize: nat, allocationPtr: PhysAddr)
    requires image.Linked() && PfaArguments(image, kernelBase, ramSize, allocationPtr).Fits()
    ensures kernelBase < TWO_TO_32 && image.textEnd - image.mapStart < 2 * TWO_TO_32
    ensures image.roEnd == image.rwStart ==> image.rwEnd - image.mapStart < 2 * TWO_TO_32
    ensures allocationPtr / PAGE_SIZE <= SizeToPageCount(ramSize)
  {
    hide RequiredBytes;
  }

  lemma TextIsTyped(words: Words, root: PhysAddr, image: KernelImage, kernelBase: PhysAddr, ramSize: nat,
                    allocationPtr: PhysAddr, s: PfaState)
    requires image.Linked() && image.mapStart == VM_KERNEL_BASE_ADDRESS && kernelBase % PAGE_SIZE == 0
    requires var regions := KernelRegions(image, kernelBase, ramSize);
             AllFit(regions) && MapsExactly(words, root, regions)
    requires AfterInit(s, PfaArguments(image, kernelBase, ramSize, allocationPtr))
    ensures TypedAs(words, root, s.metadata, image.textStart, image.textEnd, PAGE_TYPE_KERNEL_TEXT)
  {
    hide AllFit, MapsExactly, Template, OnPage, InitiallyFree, RequiredBytes, PhysmapVmBase;
    FitsBelow(image, kernelBase, ramSize, allocationPtr);
    KernelTemplates();
    forall address | image.textStart <= address < image.textEnd
      ensures HasType(words, root, s.metadata, address, PAGE_TYPE_KERNEL_TEXT)
    {
      SectionOnPage(words, root, image, kernelBase, ramSize, 0, image.textStart, image.textEnd, address);
      SectionPages(image, kernelBase, ramSize, allocationPtr, address);
    }
  }

  lemma DataIsTyped(words: Words, root: PhysAddr, image: KernelImage, kernelBase: PhysAddr, ramSize: nat,
                    allocationPtr: PhysAddr, s: PfaState)
    requires image.Linked() && image.mapStart == VM_KERNEL_BASE_ADDRESS && kernelBase % PAGE_SIZE == 0
    requires var regions := KernelRegions(image, kernelBase, ramSize);
             AllFit(regions) && MapsExactly(words, root, regions)
    requires AfterInit(s, PfaArguments(image, kernelBase, ramSize, allocationPtr)) && image.roEnd == image.rwStart
    ensures TypedAs(words, root, s.metadata, image.roStart, image.rwEnd, PAGE_TYPE_KERNEL_DATA)
  {
    hide AllFit, MapsExactly, Template, OnPage, InitiallyFree, RequiredBytes, PhysmapVmBase;
    FitsBelow(image, kernelBase, ramSize, allocationPtr);
    KernelTemplates();
    forall address | image.roStart <= address < image.rwEnd
      ensures HasType(words, root, s.metadata, address, PAGE_TYPE_KERNEL_DATA)
    {
      if address < image.roEnd {
        SectionOnPage(words, root, image, kernelBase, ramSize, 1, image.roStart, image.roEnd, address);
      } else {
        SectionOnPage(words, root, image, kernelBase, ramSize, 2, image.rwStart, image.rwEnd, address);
      }
      SectionPages(image, kernelBase, ramSize, allocationPtr, address);
    }
  }

  lemma TypesOfImage(words: Words, root: PhysAddr, image: KernelImage, kernelBase: PhysAddr, ramSize: nat,
                     allocationPtr: PhysAddr, s: PfaState)
    requires image.Linked() && image.mapStart == VM_KERNEL_BASE_ADDRESS && kernelBase % PAGE_SIZE == 0
    requires var regions := KernelRegions(image, kernelBase, ramSize);
             AllFit(regions) && MapsExactly(words, root, regions)
    requires AfterInit(s, PfaArguments(image, kernelBase, ramSize, allocationPtr))
    ensures ImageIsTyped(words, root, s.metadata, image, allocationPtr)
  {
    hide AllFit, MapsExactly, Template, OnPage, InitiallyFree, RequiredBytes, PhysmapVmBase, TypedAs;
    TextIsTyped(words, root, image, kernelBase, ramSize, allocationPtr, s);
    if image.roEnd == image.rwStart {
      DataIsTyped(words, root, image, kernelBase, ramSize, allocationPtr, s);
    }
    FitsBelow(image, kernelBase, ramSize, allocationPtr);
    KernelTemplates();
    var boot := PfaArguments(image, kernelBase, ramSize, allocationPtr);
    forall p: nat {:trigger s.metadata[p]} | p < allocationPtr / PAGE_SIZE && p < |s.metadata|
      ensures || s.metadata[p] == PAGE_TYPE_KERNEL_DATA
              || exists address :: image.textStart <= address < image.textEnd && OnPage(words, root, address, p)
    {
      assert boot.IsReserved(p);
      if boot.IsText(p) {
        var address := TextPage(image, kernelBase, ramSize, allocationPtr, p);
        SectionOnPage(words, root, image, kernelBase, ramSize, 0, image.textStart, image.textEnd, address);
      }
    }
  }

  datatype BootOutcome = Running | MappingPanicked | NoRoom

  /**
   * The whole of pmap_vm_init (pmap_init.c:182-271): the kernel's tables, and then the allocator for
   * the rest of RAM, which must have room for the tables and the allocator's own data. Whatever
   * calls are made from then on, the allocator leaves every page of the tables alone.
   */
  method PmapVmInitWhole(memory: Words, image: KernelImage, kernelBase: PhysAddr, ramSize: nat,
                         bootstrapPaReserved: PhysAddr)
    returns (outcome: BootOutcome, pmap: Pmap, pfa: Pfa?, boot: BootMemory)
    requires image.Linked() && bootstrapPaReserved % PAGE_SIZE == 0 && bootstrapPaReserved < 0x100_0000_0000
    ensures fresh(pmap) && pmap.tableBase == bootstrapPaReserved
    ensures outcome == MappingPanicked <==> !AllFit(KernelRegions(image, kernelBase, ramSize))
    ensures boot == PfaArguments(image, kernelBase, ramSize, pmap.allocationPtr)
    ensures outcome == NoRoom ==> !boot.Fits()
    ensures outcome == Running ==>
              && pmap.Ready() && pmap.Tidy()
              && MapsExactly(pmap.words, pmap.tableBase, KernelRegions(image, kernelBase, ramSize))
              && pfa != null && fresh(pfa.repr) && pfa.Valid() && AfterInit(pfa.State(), boot)
              && NeverHandsOut(pmap.owner, boot)
    ensures outcome == Running && kernelBase % PAGE_SIZE == 0 && image.mapStart == VM_KERNEL_BASE_ADDRESS ==>
              ImageIsTyped(pmap.words, pmap.tableBase, pfa.State().metadata, image, pmap.allocationPtr)
  {
    hide Tree, MapsExactly, AllFit, Section, PhysmapVmBase, RequiredBytes, AfterInit, NeverHandsOut;
    hide Pmap.Tidy, Pfa.Valid, NeededTables, Untouched, ArenaFor;
    var done;
    done, pmap := PmapVmInit(memory, image, kernelBase, ramSize, bootstrapPaReserved);
    boot := PfaArguments(image, kernelBase, ramSize, pmap.allocationPtr);
    pfa := null;
    if !done {
      return MappingPanicked, pmap, pfa, boot;
    }
    if !boot.Fits() {
      return NoRoom, pmap, pfa, boot;
    }
    pfa := Init(boot);
    outcome := Running;
    TablesAreNeverHandedOut(pmap.words, pmap.owner, pmap.tableBase, boot);
    if kernelBase % PAGE_SIZE == 0 && image.mapStart == VM_KERNEL_BASE_ADDRESS {
      TypesOfImage(pmap.words, pmap.tableBase, image, kernelBase, ramSize, pmap.allocationPtr, pfa.State());
    }
  }
}

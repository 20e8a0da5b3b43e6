/** kernel/arch/x64/mem.c: setup_kernel_map and mem_init, the kernel's own address space. */
module KernelMap {
  import Sets
  import opened Structures
  import opened Wrappers
  import opened Worlds
  import opened PhysicalMemory
  import opened Runs
  import opened History
  import opened Ranges
  import opened Mem
  import opened Paging

  const FLUX_BASE_VIRT: Word := 0xffff_ffff_8000_0000
  const DIRECT_LIMIT: Word := 0x1_0000_0000
  const DIRECT_PAGES := 0x10_0000
  const KERNEL_FLAGS := PSE_WRITEABLE + PSE_USER_MODE

  /** Iterations of `for (o = 0; o < length; o += 4096)`. */
  function Blocks(length: nat): nat {
    CeilDiv(length, 4096)
  }

  /** The kernel is mapped at the base of its virtual range, a module at its physical address above it. */
  function ModuleOffset(e: MemmapEntry, physBase: Word): Word {
    if e.base == physBase then 0 else e.base
  }

  function EntryVirt(e: MemmapEntry, physBase: Word): Word {
    Wrap(FLUX_BASE_VIRT + ModuleOffset(e, physBase))
  }

  function EntryOps(root: nat, e: MemmapEntry, physBase: Word): seq<Op> {
    if e.kind == LIMINE_MEMMAP_KERNEL_AND_MODULES
    then RangeOps(root, e.base, EntryVirt(e, physBase), Blocks(e.length), KERNEL_FLAGS)
    else []
  }

  function EntriesOps(root: nat, entries: seq<MemmapEntry>, physBase: Word): seq<Op> {
    if entries == [] then []
    else EntriesOps(root, entries[..|entries| - 1], physBase) + EntryOps(root, entries[|entries| - 1], physBase)
  }

  function DirectOps(root: nat, hhdm: Word): seq<Op> {
    RangeOps(root, 0, hhdm, DIRECT_PAGES, KERNEL_FLAGS)
  }

  /** The operations of setup_kernel_map after its root was taken. */
  function KernelOps(root: nat, entries: seq<MemmapEntry>, physBase: Word, hhdm: Word): seq<Op> {
    EntriesOps(root, entries, physBase) + DirectOps(root, hhdm)
  }

  // ---------- Running the operations one by one ----------

  lemma {:induction false} RangePrefix(root: nat, pbase: Word, vbase: Word, k: nat, n: nat, flags: nat)
    requires k <= n
    ensures RangeOps(root, pbase, vbase, k, flags) <= RangeOps(root, pbase, vbase, n, flags)
    decreases n
  {
    if k < n {
      RangePrefix(root, pbase, vbase, k, n - 1, flags);
    }
  }

  lemma PrefixRuns(w: World, ops: seq<Op>, pre: seq<Op>)
    requires pre <= ops && Run(w, ops).Some?
    ensures Run(w, pre).Some?
  {
    RunPrefix(w, ops, |pre|);
    assert ops[..|pre|] == pre;
  }

  /** In the middle of a range that can be run, the next map can be run. */
  lemma RangeNext(w0: World, w: World, root: nat, pbase: Word, vbase: Word, k: nat, n: nat, flags: nat)
    requires k < n && Run(w0, RangeOps(root, pbase, vbase, n, flags)).Some?
    requires Run(w0, RangeOps(root, pbase, vbase, k, flags)) == Some(w)
    ensures var op := Map(root, Wrap(pbase + 4096 * k), Wrap(vbase + 4096 * k), flags);
      Step(w, op).Some? && Run(w0, RangeOps(root, pbase, vbase, k + 1, flags)) == Step(w, op)
  {
    hide Step, Run;
    var op := Map(root, Wrap(pbase + 4096 * k), Wrap(vbase + 4096 * k), flags);
    var ops := RangeOps(root, pbase, vbase, k, flags);
    assert RangeOps(root, pbase, vbase, k + 1, flags) == ops + [op];
    RunSnoc(w0, ops, op);
    RangePrefix(root, pbase, vbase, k + 1, n, flags);
    PrefixRuns(w0, RangeOps(root, pbase, vbase, n, flags), ops + [op]);
  }

  lemma RangeStart(w: World, root: nat, pbase: Word, vbase: Word, flags: nat)
    ensures Run(w, RangeOps(root, pbase, vbase, 0, flags)) == Some(w)
  {
  }

  /** C computes `base + offset + module` from the left; the range adds the block offset last. */
  lemma VirtSum(o: nat, module_: Word)
    ensures Wrap(Wrap(FLUX_BASE_VIRT + o) + module_) == Wrap(Wrap(FLUX_BASE_VIRT + module_) + o)
  {
    hide Wrap;
    WrapTwice(FLUX_BASE_VIRT + o, module_);
    WrapTwice(FLUX_BASE_VIRT + module_, o);
  }

  lemma BlocksLeft(length: nat, k: nat)
    ensures 4096 * k < length <==> k < Blocks(length)
  {
  }

  /** The inner loop of setup_kernel_map: map every block of one kernel or module entry. */
  method MapEntry(pool: FramePool, pml4: Word, entry: MemmapEntry, physBase: Word)
    requires pool.Valid() && pml4 % 4096 == 0 && entry.length <= TWO64 - 4096
    requires entry.kind == LIMINE_MEMMAP_KERNEL_AND_MODULES
    requires Run(pool.world, EntryOps(pml4 / 4096, entry, physBase)).Some?
    modifies pool, pool.mem
    ensures pool.Valid() && pool.usable == old(pool.usable) && pool.world.held == old(pool.world.held)
    ensures Spares(pool.usable, pool.world.held, old(pool.mem[..]), pool.mem[..])
    ensures Run(old(pool.world), EntryOps(pml4 / 4096, entry, physBase)) == Some(pool.world)
  {
    hide Step, Run, RangeOps, Holds, Wrap, Spares, MapShows;
    ghost var m0 := pool.mem[..];
    SparesSelf(pool.usable, pool.world.held, m0);
    ghost var w0, root, n, virt := pool.world, pml4 / 4096, Blocks(entry.length), EntryVirt(entry, physBase);
    var mappingModuleOffset := if entry.base == physBase then 0 else entry.base;
    var bOffset: Word := 0;
    ghost var k: nat := 0;
    RangeStart(w0, root, entry.base, virt, KERNEL_FLAGS);
    while bOffset < entry.length
      invariant bOffset == 4096 * k && k <= n
      invariant pool.Valid() && pool.usable == old(pool.usable) && pool.world.held == old(pool.world.held)
      invariant Spares(pool.usable, pool.world.held, m0, pool.mem[..])
      invariant Run(w0, RangeOps(root, entry.base, virt, k, KERNEL_FLAGS)) == Some(pool.world)
      decreases n - k
    {
      BlocksLeft(entry.length, k);
      RangeNext(w0, pool.world, root, entry.base, virt, k, n, KERNEL_FLAGS);
      VirtSum(bOffset, mappingModuleOffset);
      var paddr, vaddr := Wrap(entry.base + bOffset), Wrap(Wrap(FLUX_BASE_VIRT + bOffset) + mappingModuleOffset);
      ghost var m := pool.mem[..];
      MapPageSpecificPml4(pool, pml4, paddr, vaddr, PSE_WRITEABLE + PSE_USER_MODE);
      SparesTwice(pool.usable, pool.world.held, m0, m, pool.mem[..]);
      bOffset := bOffset + 4096;
      k := k + 1;
    }
    BlocksLeft(entry.length, k);
  }

  /** The second loop of setup_kernel_map: map the first 4 GiB of physical memory. */
  method MapDirect(pool: FramePool, pml4: Word, hhdm: Word)
    requires pool.Valid() && pml4 % 4096 == 0
    requires Run(pool.world, DirectOps(pml4 / 4096, hhdm)).Some?
    modifies pool, pool.mem
    ensures pool.Valid() && pool.usable == old(pool.usable) && pool.world.held == old(pool.world.held)
    ensures Spares(pool.usable, pool.world.held, old(pool.mem[..]), pool.mem[..])
    ensures Run(old(pool.world), DirectOps(pml4 / 4096, hhdm)) == Some(pool.world)
  {
    hide Step, Run, RangeOps, Holds, Wrap, Spares, MapShows;
    ghost var m0 := pool.mem[..];
    SparesSelf(pool.usable, pool.world.held, m0);
    ghost var w0, root := pool.world, pml4 / 4096;
    var p: Word := 0;
    ghost var k: nat := 0;
    RangeStart(w0, root, 0, hhdm, KERNEL_FLAGS);
    while p < DIRECT_LIMIT
      invariant p == 4096 * k && k <= DIRECT_PAGES
      invariant pool.Valid() && pool.usable == old(pool.usable) && pool.world.held == old(pool.world.held)
      invariant Spares(pool.usable, pool.world.held, m0, pool.mem[..])
      invariant Run(w0, RangeOps(root, 0, hhdm, k, KERNEL_FLAGS)) == Some(pool.world)
      decreases DIRECT_PAGES - k
    {
      RangeNext(w0, pool.world, root, 0, hhdm, k, DIRECT_PAGES, KERNEL_FLAGS);
      WrapSmall(4096 * k);
      ghost var m := pool.mem[..];
      MapPageSpecificPml4(pool, pml4, p, Wrap(hhdm + p), PSE_WRITEABLE + PSE_USER_MODE);
      SparesTwice(pool.usable, pool.world.held, m0, m, pool.mem[..]);
      p := p + 4096;
      k := k + 1;
    }
  }

  lemma {:induction false} EntriesPrefix(root: nat, entries: seq<MemmapEntry>, physBase: Word, k: nat)
    requires k <= |entries|
    ensures EntriesOps(root, entries[..k], physBase) <= EntriesOps(root, entries, physBase)
  {
    if k < |entries| {
      var init := entries[..|entries| - 1];
      EntriesPrefix(root, init, physBase, k);
      assert init[..k] == entries[..k];
    } else {
      assert entries[..k] == entries;
    }
  }

  lemma EntriesSnoc(root: nat, entries: seq<MemmapEntry>, physBase: Word, i: nat)
    requires i < |entries|
    ensures EntriesOps(root, entries[..i + 1], physBase)
            == EntriesOps(root, entries[..i], physBase) + EntryOps(root, entries[i], physBase)
  {
    assert entries[..i + 1][..i] == entries[..i];
  }

  /** In the middle of the memory map, the operations of the next entry can be run. */
  lemma EntriesNext(w0: World, w: World, root: nat, entries: seq<MemmapEntry>, physBase: Word, i: nat)
    requires i < |entries| && Run(w0, EntriesOps(root, entries, physBase)).Some?
    requires Run(w0, EntriesOps(root, entries[..i], physBase)) == Some(w)
    ensures Run(w, EntryOps(root, entries[i], physBase)).Some?
    ensures Run(w0, EntriesOps(root, entries[..i + 1], physBase)) == Run(w, EntryOps(root, entries[i], physBase))
  {
    hide Step, EntryOps;
    EntriesSnoc(root, entries, physBase, i);
    RunConcat(w0, EntriesOps(root, entries[..i], physBase), EntryOps(root, entries[i], physBase));
    EntriesPrefix(root, entries, physBase, i + 1);
    PrefixRuns(w0, EntriesOps(root, entries, physBase), EntriesOps(root, entries[..i + 1], physBase));
  }

  lemma EntriesStart(w: World, root: nat, entries: seq<MemmapEntry>, physBase: Word)
    ensures Run(w, EntriesOps(root, entries[..0], physBase)) == Some(w)
  {
  }

  lemma NothingToRun(w: World, root: nat, e: MemmapEntry, physBase: Word)
    requires e.kind != LIMINE_MEMMAP_KERNEL_AND_MODULES
    ensures Run(w, EntryOps(root, e, physBase)) == Some(w)
  {
  }

  /** No kernel or module entry is so long that the 64-bit block offset of the inner loop would wrap
      around below its length, which would keep the loop going for ever. */
  predicate KernelEntriesOk(entries: seq<MemmapEntry>) {
    forall i :: 0 <= i < |entries| && entries[i].kind == LIMINE_MEMMAP_KERNEL_AND_MODULES ==>
      entries[i].length <= TWO64 - 4096
  }

  /** The first loop of setup_kernel_map. */
  method MapEntries(pool: FramePool, pml4: Word, entries: seq<MemmapEntry>, physBase: Word)
    requires pool.Valid() && pml4 % 4096 == 0 && KernelEntriesOk(entries)
    requires Run(pool.world, EntriesOps(pml4 / 4096, entries, physBase)).Some?
    modifies pool, pool.mem
    ensures pool.Valid() && pool.usable == old(pool.usable) && pool.world.held == old(pool.world.held)
    ensures Spares(pool.usable, pool.world.held, old(pool.mem[..]), pool.mem[..])
    ensures Run(old(pool.world), EntriesOps(pml4 / 4096, entries, physBase)) == Some(pool.world)
  {
    hide Step, Run, EntriesOps, EntryOps, Holds, Spares;
    ghost var m0 := pool.mem[..];
    SparesSelf(pool.usable, pool.world.held, m0);
    ghost var w0, root := pool.world, pml4 / 4096;
    EntriesStart(w0, root, entries, physBase);
    var i := 0;
    while i < |entries|
      invariant 0 <= i <= |entries|
      invariant pool.Valid() && pool.usable == old(pool.usable) && pool.world.held == old(pool.world.held)
      invariant Spares(pool.usable, pool.world.held, m0, pool.mem[..])
      invariant Run(w0, EntriesOps(root, entries[..i], physBase)) == Some(pool.world)
    {
      var entry := entries[i];
      EntriesNext(w0, pool.world, root, entries, physBase, i);
      if entry.kind == LIMINE_MEMMAP_KERNEL_AND_MODULES {
        ghost var m := pool.mem[..];
        MapEntry(pool, pml4, entry, physBase);
        SparesTwice(pool.usable, pool.world.held, m0, m, pool.mem[..]);
      } else {
        NothingToRun(pool.world, root, entry, physBase);
      }
      i := i + 1;
    }
    assert entries[..i] == entries;
  }

  /** Take a frame for the kernel's PML4, which is not cleared, and map the kernel, the modules and
      the first 4 GiB. */
  method SetupKernelMap(pool: FramePool, entries: seq<MemmapEntry>, physBase: Word, hhdm: Word)
    returns (kernelPml4Table: Word)
    requires pool.Valid() && KernelEntriesOk(entries) && pool.firstPageFrame != 0
    requires pool.world.free != [] ==>
      Run(pool.world, [NewRoot] + KernelOps(pool.world.free[0], entries, physBase, hhdm)).Some?
    modifies pool, pool.mem
    ensures pool.Valid() && pool.usable == old(pool.usable) && pool.world.held == old(pool.world.held)
    ensures Spares(pool.usable, pool.world.held, old(pool.mem[..]), pool.mem[..])
    ensures old(pool.world.free) != [] && kernelPml4Table == 4096 * old(pool.world.free[0])
    ensures Run(old(pool.world), [NewRoot] + KernelOps(kernelPml4Table / 4096, entries, physBase, hhdm)) == Some(pool.world)
  {
    hide Run, EntriesOps, DirectOps, Holds, Step, Spares;
    ghost var m0 := pool.mem[..];
    ghost var w := pool.world;
    kernelPml4Table := NewPml4(pool);
    ghost var root, w1 := kernelPml4Table / 4096, pool.world;
    assert root == w.free[0];
    RunOne(w, w1, NewRoot, EntriesOps(root, entries, physBase) + DirectOps(root, hhdm));
    RunConcat(w1, EntriesOps(root, entries, physBase), DirectOps(root, hhdm));
    MapEntries(pool, kernelPml4Table, entries, physBase);
    ghost var m := pool.mem[..];
    MapDirect(pool, kernelPml4Table, hhdm);
    SparesTwice(pool.usable, pool.world.held, m0, m, pool.mem[..]);
  }

  /** Count the pool's frames and set up the kernel map; the result is the number of frames left. */
  method MemInit(pool: FramePool, entries: seq<MemmapEntry>, physBase: Word, hhdm: Word)
    returns (left: Word, kernelPml4Table: Word)
    requires MemmapOk(entries, pool.mem.Length) && KernelEntriesOk(entries)
    requires forall f :: f in Discovered(entries) ==> Clean(pool.mem[..], f)
    requires 0 < TotalFrames(entries) < 0x8000_0000
    requires |BootWorld(entries).free| > 0 ==>
      Run(BootWorld(entries), [NewRoot] + KernelOps(BootWorld(entries).free[0], entries, physBase, hhdm)).Some?
    modifies pool, pool.mem
    ensures pool.Valid() && pool.usable == SetOf(Discovered(entries))
    ensures forall f: nat :: f in pool.usable <==>
      exists i :: 0 <= i < |entries| && entries[i].kind == 0 && entries[i].base <= 4096 * f < entries[i].base + entries[i].length
    ensures forall k: nat :: k < pool.mem.Length && pool.mem[k] != old(pool.mem[k]) ==>
      exists i :: 0 <= i < |entries| && entries[i].kind == 0 && entries[i].base <= 8 * k < entries[i].base + entries[i].length
    ensures left == pool.nFreePageFrames == |pool.world.free|
    ensures Run(BootWorld(entries), [NewRoot] + KernelOps(kernelPml4Table / 4096, entries, physBase, hhdm)) == Some(pool.world)
    ensures forall vaddr: Word ::
      Walk(pool.mem[..], kernelPml4Table / 4096, vaddr)
      == Expected(KernelOps(kernelPml4Table / 4096, entries, physBase, hhdm), kernelPml4Table / 4096, vaddr)
    ensures LayoutOk(entries, physBase, hhdm) ==> KernelSeen(pool.mem[..], kernelPml4Table / 4096, entries, physBase, hhdm)
  {
    hide KernelSeen, LayoutOk;
    hide Run, KernelOps, Walk, Expected, Spares, Holds, WorldOk, OnlyLinks, Chain;
    ghost var m := pool.mem[..];
    pool.firstPageFrame := 0;
    ghost var list;
    var n;
    n, list := pool.FindFreeFrames(entries);
    forall f | f in Discovered(entries) ensures Clean(pool.mem[..], f) {
      LinksKeepClean(m, pool.mem[..], Discovered(entries), f);
    }
    CountSurvives(TotalFrames(entries));
    pool.nFreePageFrames := n;
    BootHolds(pool.mem[..], pool.firstPageFrame, entries);
    pool.usable, pool.world := SetOf(Discovered(entries)), BootWorld(entries);
    HeadOfList(pool.mem[..], pool.firstPageFrame, pool.nFreePageFrames, pool.usable, pool.world);
    HoldsWorld(pool.mem[..], pool.firstPageFrame, pool.nFreePageFrames, pool.usable, pool.world);
    LinksSpare(m, pool.mem[..], Discovered(entries));
    ghost var m1 := pool.mem[..];
    kernelPml4Table := SetupKernelMap(pool, entries, physBase, hhdm);
    SparesTwice(pool.usable, {}, m, m1, pool.mem[..]);
    PoolWords(m, pool.mem[..], entries, pool.mem.Length);
    PoolIs(entries, list);
    HoldsWorld(pool.mem[..], pool.firstPageFrame, pool.nFreePageFrames, pool.usable, pool.world);
    left := pool.nFreePageFrames;
    ghost var root := kernelPml4Table / 4096;
    forall vaddr: Word
      ensures Walk(pool.mem[..], root, vaddr) == Expected(KernelOps(root, entries, physBase, hhdm), root, vaddr) {
      KernelWalk(pool.mem[..], pool.firstPageFrame, pool.nFreePageFrames, pool.usable, BootWorld(entries),
                 entries, physBase, hhdm, vaddr);
    }
    if LayoutOk(entries, physBase, hhdm) {
      KernelIsSeen(pool.mem[..], pool.firstPageFrame, pool.nFreePageFrames, pool.usable, BootWorld(entries),
                   entries, physBase, hhdm);
    }
  }

  lemma PoolIs(entries: seq<MemmapEntry>, list: seq<nat>)
    requires list == Reverse(Discovered(entries))
    ensures forall f: nat :: f in SetOf(Discovered(entries)) <==> f in list
  {
    ReverseSame(Discovered(entries));
  }

  // ---------- How many frames the kernel map takes ----------

  lemma {:induction false} EntriesMaps(root: nat, entries: seq<MemmapEntry>, physBase: Word)
    ensures MapsOf(EntriesOps(root, entries, physBase), root, KERNEL_FLAGS)
  {
    if entries != [] {
      hide RangeOps;
      var e := entries[|entries| - 1];
      EntriesMaps(root, entries[..|entries| - 1], physBase);
      RangeMaps(root, e.base, EntryVirt(e, physBase), Blocks(e.length), KERNEL_FLAGS);
    }
  }

  lemma KernelMaps(root: nat, entries: seq<MemmapEntry>, physBase: Word, hhdm: Word)
    ensures MapsOf(KernelOps(root, entries, physBase, hhdm), root, KERNEL_FLAGS)
  {
    EntriesMaps(root, entries, physBase);
    RangeMaps(root, 0, hhdm, DIRECT_PAGES, KERNEL_FLAGS);
  }

  /** The kernel map can be built exactly when the pool has one frame for the root and one for each
      table on the paths of its pages. */
  lemma KernelCost(usable: set<nat>, size: nat, w: World, entries: seq<MemmapEntry>, physBase: Word, hhdm: Word)
    requires WorldOk(usable, size, w) && w.free != []
    ensures var ops := KernelOps(w.free[0], entries, physBase, hhdm);
      Run(w, [NewRoot] + ops).Some? <==> 1 + |PathAll(ops) - TableNodes(w)| <= |w.free|
  {
    hide Run, KernelOps;
    var root := w.free[0];
    var w1, ops := Step(w, NewRoot).value, KernelOps(root, entries, physBase, hhdm);
    StepKeeps(usable, size, w, NewRoot);
    RunOne(w, w1, NewRoot, ops);
    KernelMaps(root, entries, physBase, hhdm);
    MapsOfLegal(w1, ops, root, KERNEL_FLAGS);
    RunCost(usable, size, w1, ops);
  }

  function EntryCost(e: MemmapEntry, physBase: Word): int {
    if e.kind == LIMINE_MEMMAP_KERNEL_AND_MODULES then RangeCost(PageOf(EntryVirt(e, physBase)), Blocks(e.length)) else 0
  }

  function EntriesCost(entries: seq<MemmapEntry>, physBase: Word): int {
    if entries == [] then 0
    else EntriesCost(entries[..|entries| - 1], physBase) + EntryCost(entries[|entries| - 1], physBase)
  }

  lemma {:induction false} EntriesTables(root: nat, entries: seq<MemmapEntry>, physBase: Word)
    requires forall i :: 0 <= i < |entries| ==> NoWrap(entries[i], physBase)
    ensures |PathAll(EntriesOps(root, entries, physBase))| <= EntriesCost(entries, physBase)
  {
    if entries != [] {
      hide PathAll, RangeOps, RangeCost, PageOf, Blocks, EntryVirt;
      var init, e := entries[..|entries| - 1], entries[|entries| - 1];
      EntriesTables(root, init, physBase);
      EntryTables(root, e, physBase);
      PathAllConcat(EntriesOps(root, init, physBase), EntryOps(root, e, physBase));
      Sets.UnionSize(PathAll(EntriesOps(root, init, physBase)), PathAll(EntryOps(root, e, physBase)));
    } else {
      assert PathAll([]) == {};
    }
  }

  /** The tables of one entry, exactly. */
  lemma EntryTables(root: nat, e: MemmapEntry, physBase: Word)
    requires NoWrap(e, physBase)
    ensures |PathAll(EntryOps(root, e, physBase))| == EntryCost(e, physBase)
  {
    hide RangeOps, RangeCost, PageOf, EntryVirt, VirtualStart;
    if e.kind == LIMINE_MEMMAP_KERNEL_AND_MODULES {
      VirtIs(e, physBase);
      RangePathSize(root, e.base, EntryVirt(e, physBase), Blocks(e.length), KERNEL_FLAGS);
    } else {
      assert PathAll([]) == {};
    }
  }

  /** A pool with a frame for the root, those of the kernel and module ranges, and 2056 for the direct
      map never runs empty while the kernel map is built. */
  lemma KernelFits(usable: set<nat>, size: nat, w: World, entries: seq<MemmapEntry>, physBase: Word, hhdm: Word)
    requires WorldOk(usable, size, w) && w.free != []
    requires forall i :: 0 <= i < |entries| ==> NoWrap(entries[i], physBase)
    requires PageOf(hhdm) + DIRECT_PAGES <= PAGE_COUNT
    requires |w.free| >= 1 + EntriesCost(entries, physBase) + 2056
    ensures Run(w, [NewRoot] + KernelOps(w.free[0], entries, physBase, hhdm)).Some?
  {
    hide Run, EntriesOps, DirectOps, PathAll, PageOf, RangeCost, TableNodes;
    var root := w.free[0];
    var a, b := PathAll(EntriesOps(root, entries, physBase)), PathAll(DirectOps(root, hhdm));
    KernelCost(usable, size, w, entries, physBase, hhdm);
    EntriesTables(root, entries, physBase);
    DirectTables(root, hhdm);
    PathAllConcat(EntriesOps(root, entries, physBase), DirectOps(root, hhdm));
    Sets.UnionSize(a, b);
    Sets.SubsetSize((a + b) - TableNodes(w), a + b);
  }

  lemma DirectTables(root: nat, hhdm: Word)
    requires PageOf(hhdm) + DIRECT_PAGES <= PAGE_COUNT
    ensures |PathAll(DirectOps(root, hhdm))| <= 2056
    ensures PageOf(hhdm) % 0x800_0000 == 0 ==> |PathAll(DirectOps(root, hhdm))| == 2053
  {
    hide RangeOps, RangeCost, PageOf;
    RangePathSize(root, 0, hhdm, DIRECT_PAGES, KERNEL_FLAGS);
    DirectMapCost(PageOf(hhdm));
  }

  // ---------- Where the kernel map leads ----------
  //
  // The layout is written out here in numbers, independently of the operations above: type 6 is kernel
  // and module memory, the kernel's virtual base is 0xffffffff80000000, and page numbers have 36 bits.

  /** Where the entry whose base is the kernel's physical base starts, and every other one. */
  function VirtualStart(e: MemmapEntry, physBase: Word): nat {
    if e.base == physBase then 0xffff_ffff_8000_0000 else 0xffff_ffff_8000_0000 + e.base
  }

  /** The pages that an entry takes in virtual memory. */
  predicate Covers(e: MemmapEntry, physBase: Word, v: nat) {
    var first := VirtualStart(e, physBase) / 4096 % 0x10_0000_0000;
    e.kind == 6 && first <= v < first + CeilDiv(e.length, 4096)
  }

  /** The page number does not overflow in the entry's virtual range. */
  predicate NoWrap(e: MemmapEntry, physBase: Word) {
    e.kind == 6 ==> VirtualStart(e, physBase) / 4096 % 0x10_0000_0000 + CeilDiv(e.length, 4096) <= 0x10_0000_0000
  }

  predicate DirectCovers(hhdm: Word, v: nat) {
    hhdm / 4096 % 0x10_0000_0000 <= v < hhdm / 4096 % 0x10_0000_0000 + 0x10_0000
  }

  predicate DirectNoWrap(hhdm: Word) {
    hhdm / 4096 % 0x10_0000_0000 + 0x10_0000 <= 0x10_0000_0000
  }

  ghost predicate NoneWraps(entries: seq<MemmapEntry>, physBase: Word, hhdm: Word) {
    DirectNoWrap(hhdm) && forall i :: 0 <= i < |entries| ==> NoWrap(entries[i], physBase)
  }

  /** Page-aligned and addressable. */
  predicate EntryMappable(e: MemmapEntry) {
    e.kind == 6 ==> e.base % 4096 == 0 && e.base + e.length <= 0x10_0000_0000_0000
  }

  /** The virtual ranges of the kernel, the modules and the direct map are aligned and disjoint and do
      not wrap. */
  ghost predicate LayoutOk(entries: seq<MemmapEntry>, physBase: Word, hhdm: Word) {
    && NoneWraps(entries, physBase, hhdm) && hhdm % 4096 == 0
    && (forall i :: 0 <= i < |entries| ==> EntryMappable(entries[i]))
    && (forall i, j, v: nat :: 0 <= i < j < |entries| ==> !(Covers(entries[i], physBase, v) && Covers(entries[j], physBase, v)))
    && (forall i, v: nat :: 0 <= i < |entries| && DirectCovers(hhdm, v) ==> !Covers(entries[i], physBase, v))
  }

  /** The operations use that layout. */
  lemma VirtIs(e: MemmapEntry, physBase: Word)
    ensures EntryVirt(e, physBase) == Wrap(VirtualStart(e, physBase))
    ensures PageOf(EntryVirt(e, physBase)) == VirtualStart(e, physBase) / 4096 % 0x10_0000_0000
    ensures EntryVirt(e, physBase) % 4096 == if e.base == physBase then 0 else e.base % 4096
  {
    hide PageOf, Wrap;
    var s := VirtualStart(e, physBase);
    PageOfWrapped(s);
    assert s % 4096 == if e.base == physBase then 0 else e.base % 4096;
  }

  lemma SameRemainder(x: nat, t: nat, y: nat)
    requires x == PAGE_COUNT * t + y
    ensures x % PAGE_COUNT == y % PAGE_COUNT
  {
    var q := y / PAGE_COUNT;
    Distribute(PAGE_COUNT, t, -q);
    QuotientIs(x, PAGE_COUNT, t + q, y % PAGE_COUNT);
  }

  lemma WrapTwice(s: nat, x: nat)
    ensures Wrap(Wrap(s) + x) == Wrap(s + x)
  {
    var t := s / TWO64;
    var q := (s % TWO64 + x) / TWO64;
    assert s + x == TWO64 * (t + q) + (s % TWO64 + x) % TWO64;
    QuotientIs(s + x, TWO64, t + q, (s % TWO64 + x) % TWO64);
  }

  /** The entry written for page v of an entry's range. */
  function PageEntry(e: MemmapEntry, physBase: Word, v: nat): Word
    requires Covers(e, physBase, v)
  {
    MakeEntry(Wrap(e.base + 4096 * (v - VirtualStart(e, physBase) / 4096 % 0x10_0000_0000)), KERNEL_FLAGS)
  }

  /** The last write of a page by the entries: that of the last entry that covers it. */
  lemma {:induction false} EntriesWrite(root: nat, entries: seq<MemmapEntry>, physBase: Word, i: int, v: nat)
    requires -1 <= i < |entries|
    requires forall j :: 0 <= j < |entries| ==> NoWrap(entries[j], physBase)
    requires forall j :: i < j < |entries| ==> !Covers(entries[j], physBase, v)
    requires i >= 0 ==> Covers(entries[i], physBase, v)
    ensures LastWrite(EntriesOps(root, entries, physBase), NodeAt(root, v, 0)) ==
      if i < 0 then None else Some(PageEntry(entries[i], physBase, v))
  {
    if entries != [] {
      hide RangeOps, EntryVirt, Blocks, PageEntry, NodeAt, Covers;
      var k := |entries| - 1;
      var init, e := entries[..k], entries[k];
      EntryWrite(root, e, physBase, v);
      HistoryConcat(EntriesOps(root, init, physBase), EntryOps(root, e, physBase), NodeAt(root, v, 0));
      if i < k {
        EntriesWrite(root, init, physBase, i, v);
      }
    }
  }

  lemma EntryWrite(root: nat, e: MemmapEntry, physBase: Word, v: nat)
    requires NoWrap(e, physBase)
    ensures LastWrite(EntryOps(root, e, physBase), NodeAt(root, v, 0)) ==
      if Covers(e, physBase, v) then Some(PageEntry(e, physBase, v)) else None
  {
    hide PageOf, EntryVirt, MakeEntry, NodeAt, VirtualStart, Wrap;
    if e.kind == LIMINE_MEMMAP_KERNEL_AND_MODULES {
      VirtIs(e, physBase);
      RangeWrites(root, e.base, EntryVirt(e, physBase), Blocks(e.length), KERNEL_FLAGS, root, v);
    }
  }

  /** The direct map comes last, so it decides its own pages. */
  lemma KernelWrite(root: nat, entries: seq<MemmapEntry>, physBase: Word, hhdm: Word, v: nat)
    requires DirectNoWrap(hhdm)
    ensures LastWrite(KernelOps(root, entries, physBase, hhdm), NodeAt(root, v, 0)) ==
      if DirectCovers(hhdm, v) then Some(RangeEntry(0, hhdm, KERNEL_FLAGS, v))
      else LastWrite(EntriesOps(root, entries, physBase), NodeAt(root, v, 0))
  {
    RangeWrites(root, 0, hhdm, DIRECT_PAGES, KERNEL_FLAGS, root, v);
    HistoryConcat(EntriesOps(root, entries, physBase), DirectOps(root, hhdm), NodeAt(root, v, 0));
  }

  lemma KernelRights(root: nat, entries: seq<MemmapEntry>, physBase: Word, hhdm: Word, vaddr: Word)
    ensures var ops := KernelOps(root, entries, physBase, hhdm);
            var e := LastWrite(ops, NodeAt(root, PageOf(vaddr), 0));
      Expected(ops, root, vaddr) ==
      if e.None? then Fault else Mapped(PsePtr(e.value) + PageOffset(vaddr), true, true)
  {
    hide KernelOps;
    var ops := KernelOps(root, entries, physBase, hhdm);
    KernelMaps(root, entries, physBase, hhdm);
    MapsOfLegal(World([], {}, map[], map[]), ops, root, KERNEL_FLAGS);
    UniformRights(ops, KERNEL_FLAGS, root, vaddr);
  }

  /** No later entry and not the direct map covers a page, and no earlier entry does unless this one
      does too. */
  ghost predicate OthersAway(entries: seq<MemmapEntry>, physBase: Word, hhdm: Word, i: nat, v: nat)
    requires i < |entries|
  {
    && !DirectCovers(hhdm, v)
    && forall j :: 0 <= j < |entries| && j != i && Covers(entries[j], physBase, v) ==> j < i && Covers(entries[i], physBase, v)
  }

  /** The page of byte x of an entry is not decided by another entry or the direct map. */
  ghost predicate ByteAway(entries: seq<MemmapEntry>, physBase: Word, hhdm: Word, i: nat, x: nat)
    requires i < |entries|
  {
    OthersAway(entries, physBase, hhdm, i, (VirtualStart(entries[i], physBase) + x) / 4096 % 0x10_0000_0000)
  }

  /** Byte x is where the layout wants it as far as the entry itself decides: no kernel with an
      unaligned base, no byte past the last page that the loop maps, none past the addressable frames. */
  predicate ByteReached(e: MemmapEntry, physBase: Word, x: nat) {
    && (e.base != physBase || e.base % 4096 == 0)
    && ((if e.base == physBase then 0 else e.base % 4096) + x) / 4096 < CeilDiv(e.length, 4096)
    && e.base + x < 0x10_0000_0000_0000
  }

  /** Byte x of an entry, the kernel's at the kernel's virtual base plus x and a module's at that base
      plus the module's physical address plus x, is mapped, writable and open to the user. */
  predicate ByteFound(root: nat, entries: seq<MemmapEntry>, physBase: Word, hhdm: Word, i: nat, x: nat)
    requires i < |entries|
  {
    Expected(KernelOps(root, entries, physBase, hhdm), root, (VirtualStart(entries[i], physBase) + x) % 0x1_0000_0000_0000_0000)
    == Mapped(entries[i].base + x, true, true)
  }

  lemma FoundExactly(root: nat, entries: seq<MemmapEntry>, physBase: Word, hhdm: Word, i: nat, x: nat)
    requires i < |entries| && NoneWraps(entries, physBase, hhdm)
    requires entries[i].kind == 6 && x < entries[i].length && ByteAway(entries, physBase, hhdm, i, x)
    ensures ByteFound(root, entries, physBase, hhdm, i, x) <==> ByteReached(entries[i], physBase, x)
  {
    hide KernelOps, EntriesOps, NodeAt, Expected, EntryVirt, Wrap, PageOf, MakeEntry, PsePtr, VirtualStart, CeilDiv,
         DirectCovers, PageEntry, RangeEntry, NoWrap, DirectNoWrap, InRange, PageOffset, Covers;
    var e := entries[i];
    var virt, n := EntryVirt(e, physBase), CeilDiv(e.length, 4096);
    var vaddr := Wrap(VirtualStart(e, physBase) + x);
    var v := PageOf(vaddr);
    BytePage(e, physBase, x);
    WrapIs(VirtualStart(e, physBase) + x);
    BlocksReach(e.length, x);
    KernelWrite(root, entries, physBase, hhdm, v);
    KernelRights(root, entries, physBase, hhdm, vaddr);
    if Covers(e, physBase, v) {
      EntriesWrite(root, entries, physBase, i, v);
      PageEntryLeads(e, physBase, v);
      PagesFit(e, physBase);
      CoveredByte(e.base, virt, n, x, v);
    } else {
      EntriesWrite(root, entries, physBase, -1, v);
      NotCovered(e, physBase, v, virt, n, x);
    }
  }

  lemma PagesFit(e: MemmapEntry, physBase: Word)
    requires e.kind == 6 && NoWrap(e, physBase)
    ensures PageOf(EntryVirt(e, physBase)) + CeilDiv(e.length, 4096) <= PAGE_COUNT
  {
    hide PageOf, EntryVirt, VirtualStart, CeilDiv;
    VirtIs(e, physBase);
  }

  /** A byte is found, at an address that is written out here, exactly when it is reached. */
  lemma ByteExactly(root: nat, entries: seq<MemmapEntry>, physBase: Word, hhdm: Word, i: nat, x: nat)
    requires i < |entries| && NoneWraps(entries, physBase, hhdm)
    requires entries[i].kind == 6 && x < entries[i].length && ByteAway(entries, physBase, hhdm, i, x)
    ensures entries[i].base == physBase ==>
      (Expected(KernelOps(root, entries, physBase, hhdm), root, (0xffff_ffff_8000_0000 + x) % 0x1_0000_0000_0000_0000)
       == Mapped(physBase + x, true, true)
       <==> ByteReached(entries[i], physBase, x))
    ensures entries[i].base != physBase ==>
      (Expected(KernelOps(root, entries, physBase, hhdm), root, (0xffff_ffff_8000_0000 + entries[i].base + x) % 0x1_0000_0000_0000_0000)
       == Mapped(entries[i].base + x, true, true)
       <==> ByteReached(entries[i], physBase, x))
    ensures ByteFound(root, entries, physBase, hhdm, i, x) <==> ByteReached(entries[i], physBase, x)
  {
    hide KernelOps, Expected, ByteReached, ByteAway, NoneWraps;
    FoundExactly(root, entries, physBase, hhdm, i, x);
  }

  lemma StartCases(e: MemmapEntry, physBase: Word)
    ensures VirtualStart(e, physBase) == if e.base == physBase then 0xffff_ffff_8000_0000 else 0xffff_ffff_8000_0000 + e.base
  {
  }

  lemma WrapIs(x: nat)
    ensures Wrap(x) == x % 0x1_0000_0000_0000_0000
  {
  }

  /** The page and the offset of byte x, counted from the start that the operations use. */
  lemma BytePage(e: MemmapEntry, physBase: Word, x: nat)
    ensures var (virt, vaddr) := (EntryVirt(e, physBase), Wrap(VirtualStart(e, physBase) + x));
      && PageOf(vaddr) == (PageOf(virt) + (virt % 4096 + x) / 4096) % PAGE_COUNT
      && PageOf(vaddr) == (VirtualStart(e, physBase) + x) / 4096 % 0x10_0000_0000
      && PageOffset(vaddr) == (virt % 4096 + x) % 4096
      && virt % 4096 == (if e.base == physBase then 0 else e.base % 4096)
  {
    hide PageOf, VirtualStart, Wrap, EntryVirt;
    var s := VirtualStart(e, physBase);
    VirtIs(e, physBase);
    WrapTwice(s, x);
    PageOfByte(EntryVirt(e, physBase), x);
    PageOfWrapped(s + x);
  }

  lemma PageOfWrapped(s: nat)
    ensures PageOf(Wrap(s)) == s / 4096 % 0x10_0000_0000 && Wrap(s) % 4096 == s % 4096
  {
    var t, y := s / TWO64, s % TWO64;
    assert s == 4096 * (0x10_0000_0000_0000 * t + y / 4096) + y % 4096;
    QuotientIs(s, 4096, 0x10_0000_0000_0000 * t + y / 4096, y % 4096);
    SameRemainder(0x10_0000_0000_0000 * t + y / 4096, 0x1_0000 * t, y / 4096);
  }

  lemma PageEntryLeads(e: MemmapEntry, physBase: Word, v: nat)
    requires Covers(e, physBase, v)
    ensures InRange(EntryVirt(e, physBase), CeilDiv(e.length, 4096), v)
    ensures PsePtr(PageEntry(e, physBase, v)) == PsePtr(Wrap(e.base + 4096 * (v - PageOf(EntryVirt(e, physBase)))))
  {
    hide PageOf, EntryVirt, Wrap, PsePtr, MakeEntry;
    VirtIs(e, physBase);
    EntryFields(Wrap(e.base + 4096 * (v - PageOf(EntryVirt(e, physBase)))), KERNEL_FLAGS);
  }

  lemma NotCovered(e: MemmapEntry, physBase: Word, v: nat, virt: Word, n: nat, x: nat)
    requires e.kind == 6 && NoWrap(e, physBase) && !Covers(e, physBase, v)
    requires virt == EntryVirt(e, physBase) && n == CeilDiv(e.length, 4096)
    requires v == (PageOf(virt) + (virt % 4096 + x) / 4096) % PAGE_COUNT
    ensures (virt % 4096 + x) / 4096 >= n
  {
    hide PageOf, EntryVirt, VirtualStart;
    VirtIs(e, physBase);
  }

  lemma BlocksReach(length: nat, x: nat)
    requires x < length
    ensures x < 4096 * CeilDiv(length, 4096)
  {
  }

  /** A whole entry is where the layout wants it exactly when it is a module or its base is aligned,
      its last byte is in the last page that the loop maps, and it is addressable.  A module whose
      offset in its first page pushes its end into one more page loses that end. */
  lemma EntryExactly(root: nat, entries: seq<MemmapEntry>, physBase: Word, hhdm: Word, i: nat)
    requires i < |entries| && NoneWraps(entries, physBase, hhdm)
    requires entries[i].kind == 6 && entries[i].length > 0
    requires forall x: nat :: x < entries[i].length ==> ByteAway(entries, physBase, hhdm, i, x)
    ensures var e := entries[i];
      (forall x: nat :: x < e.length ==> ByteFound(root, entries, physBase, hhdm, i, x))
      <==> (e.base != physBase || e.base % 4096 == 0)
           && (if e.base == physBase then 0 else e.base % 4096) + e.length <= 4096 * CeilDiv(e.length, 4096)
           && e.base + e.length <= 0x10_0000_0000_0000
  {
    hide ByteFound, ByteReached, ByteAway, CeilDiv;
    var e := entries[i];
    forall x: nat | x < e.length
      ensures ByteFound(root, entries, physBase, hhdm, i, x) <==> ByteReached(e, physBase, x) {
      ByteExactly(root, entries, physBase, hhdm, i, x);
    }
    AllReached(e, physBase, CeilDiv(e.length, 4096));
  }

  lemma AllReached(e: MemmapEntry, physBase: Word, n: nat)
    requires e.length > 0 && n == CeilDiv(e.length, 4096)
    ensures (forall x: nat :: x < e.length ==> ByteReached(e, physBase, x))
      <==> (e.base != physBase || e.base % 4096 == 0)
           && (if e.base == physBase then 0 else e.base % 4096) + e.length <= 4096 * n
           && e.base + e.length <= 0x10_0000_0000_0000
  {
    hide CeilDiv;
    if forall x: nat :: x < e.length ==> ByteReached(e, physBase, x) {
      assert ByteReached(e, physBase, e.length - 1);
    }
  }

  /** The end of a module that starts in the middle of a page: with one block to map, the second half
      of this one faults. */
  lemma ModuleEndLost(root: nat, e: MemmapEntry, physBase: Word, hhdm: Word)
    requires e == MemmapEntry(0x10_1800, 0x1000, 6) && physBase == 0x20_0000 && hhdm == 0xffff_8000_0000_0000
    ensures NoneWraps([e], physBase, hhdm) && ByteAway([e], physBase, hhdm, 0, 0x800)
    ensures Expected(KernelOps(root, [e], physBase, hhdm), root, 0xffff_ffff_8010_2000) == Fault
  {
    ModuleEndPage(e, physBase, hhdm);
    hide KernelOps, Expected, NoWrap, DirectNoWrap, Covers, DirectCovers, VirtualStart;
    NothingElse(root, [e], physBase, hhdm, 0xffff_ffff_8010_2000);
  }

  lemma ModuleEndPage(e: MemmapEntry, physBase: Word, hhdm: Word)
    requires e == MemmapEntry(0x10_1800, 0x1000, 6) && physBase == 0x20_0000 && hhdm == 0xffff_8000_0000_0000
    ensures NoWrap(e, physBase) && DirectNoWrap(hhdm)
    ensures VirtualStart(e, physBase) + 0x800 == 0xffff_ffff_8010_2000
    ensures var v := 0xffff_ffff_8010_2000 / 4096 % 0x10_0000_0000;
      !Covers(e, physBase, v) && !DirectCovers(hhdm, v)
  {
    var s := VirtualStart(e, physBase);
    QuotientIs(s, 4096, 0xf_ffff_fff8_0101, 0x800);
    QuotientIs(s / 4096, PAGE_COUNT, 0xffff, 0xf_fff8_0101);
    QuotientIs(0xffff_ffff_8010_2000, 4096, 0xf_ffff_fff8_0102, 0);
    QuotientIs(0xf_ffff_fff8_0102, PAGE_COUNT, 0xffff, 0xf_fff8_0102);
    QuotientIs(hhdm, 4096, 0xf_fff8_0000_0000, 0);
    QuotientIs(hhdm / 4096, PAGE_COUNT, 0xffff, 0x8_0000_0000);
    QuotientIs(0x1fff, 4096, 1, 0xfff);
  }

  /** With a page-aligned layout every byte of the kernel is found at 0xffffffff80000000 plus its
      offset, and every byte of a module at that address plus its physical address. */
  lemma KernelByte(root: nat, entries: seq<MemmapEntry>, physBase: Word, hhdm: Word, i: nat, x: nat)
    requires LayoutOk(entries, physBase, hhdm) && i < |entries| && entries[i].kind == 6 && x < entries[i].length
    ensures entries[i].base == physBase ==>
      Expected(KernelOps(root, entries, physBase, hhdm), root, (0xffff_ffff_8000_0000 + x) % 0x1_0000_0000_0000_0000)
      == Mapped(physBase + x, true, true)
    ensures entries[i].base != physBase ==>
      Expected(KernelOps(root, entries, physBase, hhdm), root, (0xffff_ffff_8000_0000 + entries[i].base + x) % 0x1_0000_0000_0000_0000)
      == Mapped(entries[i].base + x, true, true)
  {
    hide KernelOps, Expected, VirtualStart, CeilDiv, DirectCovers;
    var e := entries[i];
    AlignedReached(e, physBase, x);
    assert Covers(e, physBase, (VirtualStart(e, physBase) + x) / 4096 % 0x10_0000_0000);
    ByteExactly(root, entries, physBase, hhdm, i, x);
  }

  lemma AlignedReached(e: MemmapEntry, physBase: Word, x: nat)
    requires e.kind == 6 && NoWrap(e, physBase) && EntryMappable(e) && x < e.length
    ensures ByteReached(e, physBase, x)
    ensures Covers(e, physBase, (VirtualStart(e, physBase) + x) / 4096 % 0x10_0000_0000)
  {
    hide PageOf, EntryVirt, VirtualStart, Wrap;
    BlocksReach(e.length, x);
    BytePage(e, physBase, x);
    VirtIs(e, physBase);
    StartCases(e, physBase);
  }

  /** Without assuming that entries are aligned: the first byte of an entry is found at the entry's
      virtual start exactly when the entry is a module or the kernel's physical base is aligned. */
  lemma FirstByte(root: nat, entries: seq<MemmapEntry>, physBase: Word, hhdm: Word, i: nat)
    requires i < |entries| && NoneWraps(entries, physBase, hhdm)
    requires entries[i].kind == 6 && entries[i].length > 0 && ByteAway(entries, physBase, hhdm, i, 0)
    requires entries[i].base < 0x10_0000_0000_0000
    ensures ByteFound(root, entries, physBase, hhdm, i, 0) <==> entries[i].base != physBase || entries[i].base % 4096 == 0
  {
    hide ByteFound;
    ByteExactly(root, entries, physBase, hhdm, i, 0);
  }

  /** A physical byte p below 4 GiB is found at the direct-map offset plus p exactly when that offset
      is page-aligned, whatever the entries are. */
  lemma DirectByte(root: nat, entries: seq<MemmapEntry>, physBase: Word, hhdm: Word, p: nat)
    requires DirectNoWrap(hhdm) && p < 0x1_0000_0000
    ensures Expected(KernelOps(root, entries, physBase, hhdm), root, (hhdm + p) % 0x1_0000_0000_0000_0000) == Mapped(p, true, true)
      <==> hhdm % 4096 == 0
  {
    hide KernelOps, EntriesOps, NodeAt, Expected, RangeEntry, PageOf, Wrap, PsePtr;
    var vaddr := Wrap(hhdm + p);
    WrapIs(hhdm + p);
    PageOfByte(hhdm, p);
    DirectIs(hhdm, PageOf(vaddr));
    KernelWrite(root, entries, physBase, hhdm, PageOf(vaddr));
    KernelRights(root, entries, physBase, hhdm, vaddr);
    if hhdm % 4096 == 0 {
      RangeByte(0, hhdm, DIRECT_PAGES, KERNEL_FLAGS, p);
    } else {
      var e := LastWrite(KernelOps(root, entries, physBase, hhdm), NodeAt(root, PageOf(vaddr), 0));
      if e.Some? {
        PsePtrAligned(e.value);
        SameOffset(PsePtr(e.value), hhdm % 4096, 0, p);
      }
    }
  }

  lemma DirectIs(hhdm: Word, v: nat)
    requires DirectNoWrap(hhdm)
    ensures PageOf(hhdm) + DIRECT_PAGES <= PAGE_COUNT
    ensures DirectCovers(hhdm, v) <==> InRange(hhdm, DIRECT_PAGES, v)
  {
  }

  /** Nothing else is mapped. */
  lemma NothingElse(root: nat, entries: seq<MemmapEntry>, physBase: Word, hhdm: Word, vaddr: Word)
    requires NoneWraps(entries, physBase, hhdm) && !DirectCovers(hhdm, vaddr / 4096 % 0x10_0000_0000)
    requires forall i :: 0 <= i < |entries| ==> !Covers(entries[i], physBase, vaddr / 4096 % 0x10_0000_0000)
    ensures Expected(KernelOps(root, entries, physBase, hhdm), root, vaddr) == Fault
  {
    hide KernelOps, EntriesOps, NodeAt, Expected, Covers, DirectCovers;
    EntriesWrite(root, entries, physBase, -1, PageOf(vaddr));
    KernelWrite(root, entries, physBase, hhdm, PageOf(vaddr));
    KernelRights(root, entries, physBase, hhdm, vaddr);
  }

  /** What Expected says of the kernel's operations is what the processor's walk of memory gives once
      they have run. */
  lemma KernelWalk(m: Memory, first: nat, count: nat, usable: set<nat>, w: World,
                   entries: seq<MemmapEntry>, physBase: Word, hhdm: Word, vaddr: Word)
    requires WorldOk(usable, |m|, w) && w.free != []
    requires var r := Run(w, [NewRoot] + KernelOps(w.free[0], entries, physBase, hhdm));
      r.Some? && Holds(m, first, count, usable, r.value)
    ensures Walk(m, w.free[0], vaddr) == Expected(KernelOps(w.free[0], entries, physBase, hhdm), w.free[0], vaddr)
  {
    hide KernelOps, Expected, Walk, Run;
    var root := w.free[0];
    var w1, ops := Step(w, NewRoot).value, KernelOps(root, entries, physBase, hhdm);
    StepKeeps(usable, |m|, w, NewRoot);
    RunOne(w, w1, NewRoot, ops);
    RunKeeps(usable, |m|, w1, ops);
    NewSpaceEmpty(usable, |m|, w);
    MemoryTranslates(m, first, count, usable, w1, ops, root, vaddr);
  }

  /** Every word that the walk of a kernel page reads, in all four tables, has the low bits 7: present,
      writable, open to the user, and nothing else. */
  lemma KernelWords(m: Memory, first: nat, count: nat, usable: set<nat>, w: World,
                    entries: seq<MemmapEntry>, physBase: Word, hhdm: Word, vaddr: Word)
    requires WorldOk(usable, |m|, w) && w.free != []
    requires var r := Run(w, [NewRoot] + KernelOps(w.free[0], entries, physBase, hhdm));
      r.Some? && Holds(m, first, count, usable, r.value)
    requires Walk(m, w.free[0], vaddr).Mapped?
    ensures |WalkWords(m, w.free[0], vaddr)| == 4
    ensures forall e :: e in WalkWords(m, w.free[0], vaddr) ==> e % 4096 == 7
  {
    hide KernelOps, Walk, WalkWords, Run, LastWrite, FirstFlags, NodeAt, SameFlags, Holds;
    var root := w.free[0];
    var w1, ops := Step(w, NewRoot).value, KernelOps(root, entries, physBase, hhdm);
    StepKeeps(usable, |m|, w, NewRoot);
    RunOne(w, w1, NewRoot, ops);
    RunKeeps(usable, |m|, w1, ops);
    NewSpaceEmpty(usable, |m|, w);
    KernelWalk(m, first, count, usable, w, entries, physBase, hhdm, vaddr);
    KernelMaps(root, entries, physBase, hhdm);
    MapsOfLegal(w1, ops, root, KERNEL_FLAGS);
    UniformWords(m, first, count, usable, w1, ops, KERNEL_FLAGS, root, vaddr);
  }

  /** What the processor sees of the kernel's memory, in numbers: each byte of the kernel at
      0xffffffff80000000 plus its offset, each byte of a module at that address plus its physical
      address, the first 4 GiB at the direct-map offset, nothing else, and no flags but 7. */
  ghost predicate KernelSeen(m: Memory, root: nat, entries: seq<MemmapEntry>, physBase: Word, hhdm: Word) {
    && (forall i: nat, vaddr: Word :: i < |entries| && entries[i].kind == 6 ==>
         var start := (0xffff_ffff_8000_0000 + (if entries[i].base == physBase then 0 else entries[i].base)) % 0x1_0000_0000_0000_0000;
         start <= vaddr < start + entries[i].length ==> Walk(m, root, vaddr) == Mapped(entries[i].base + (vaddr - start), true, true))
    && (forall vaddr: Word :: hhdm <= vaddr < hhdm + 0x1_0000_0000 ==> Walk(m, root, vaddr) == Mapped(vaddr - hhdm, true, true))
    && (forall vaddr: Word ::
         !DirectCovers(hhdm, vaddr / 4096 % 0x10_0000_0000)
         && (forall i :: 0 <= i < |entries| ==> !Covers(entries[i], physBase, vaddr / 4096 % 0x10_0000_0000)) ==>
         Walk(m, root, vaddr) == Fault)
    && (forall vaddr: Word :: Walk(m, root, vaddr).Mapped? ==>
         |WalkWords(m, root, vaddr)| == 4 && forall e :: e in WalkWords(m, root, vaddr) ==> e % 4096 == 7)
  }

  lemma KernelIsSeen(m: Memory, first: nat, count: nat, usable: set<nat>, w: World,
                     entries: seq<MemmapEntry>, physBase: Word, hhdm: Word)
    requires WorldOk(usable, |m|, w) && w.free != [] && LayoutOk(entries, physBase, hhdm)
    requires var r := Run(w, [NewRoot] + KernelOps(w.free[0], entries, physBase, hhdm));
      r.Some? && Holds(m, first, count, usable, r.value)
    ensures KernelSeen(m, w.free[0], entries, physBase, hhdm)
  {
    hide KernelOps, Expected, Walk, WalkWords, Run, Holds, WorldOk, Covers, DirectCovers;
    var root := w.free[0];
    forall i: nat, vaddr: Word | i < |entries| && entries[i].kind == 6
      ensures
        var start := (0xffff_ffff_8000_0000 + (if entries[i].base == physBase then 0 else entries[i].base)) % 0x1_0000_0000_0000_0000;
        start <= vaddr < start + entries[i].length ==> Walk(m, root, vaddr) == Mapped(entries[i].base + (vaddr - start), true, true)
    {
      var s := 0xffff_ffff_8000_0000 + (if entries[i].base == physBase then 0 else entries[i].base);
      var start := s % 0x1_0000_0000_0000_0000;
      if start <= vaddr < start + entries[i].length {
        KernelByte(root, entries, physBase, hhdm, i, vaddr - start);
        RemainderSum(s, vaddr - start, vaddr);
        KernelWalk(m, first, count, usable, w, entries, physBase, hhdm, vaddr);
      }
    }
    forall vaddr: Word | hhdm <= vaddr < hhdm + 0x1_0000_0000
      ensures Walk(m, root, vaddr) == Mapped(vaddr - hhdm, true, true) {
      DirectByte(root, entries, physBase, hhdm, vaddr - hhdm);
      KernelWalk(m, first, count, usable, w, entries, physBase, hhdm, vaddr);
    }
    forall vaddr: Word | !DirectCovers(hhdm, vaddr / 4096 % 0x10_0000_0000)
      && (forall i :: 0 <= i < |entries| ==> !Covers(entries[i], physBase, vaddr / 4096 % 0x10_0000_0000))
      ensures Walk(m, root, vaddr) == Fault {
      NothingElse(root, entries, physBase, hhdm, vaddr);
      KernelWalk(m, first, count, usable, w, entries, physBase, hhdm, vaddr);
    }
    forall vaddr: Word | Walk(m, root, vaddr).Mapped?
      ensures |WalkWords(m, root, vaddr)| == 4 && forall e :: e in WalkWords(m, root, vaddr) ==> e % 4096 == 7 {
      KernelWords(m, first, count, usable, w, entries, physBase, hhdm, vaddr);
    }
  }

  lemma RemainderSum(s: nat, x: nat, y: Word)
    requires y == s % 0x1_0000_0000_0000_0000 + x
    ensures (s + x) % 0x1_0000_0000_0000_0000 == y
  {
    var t := s / TWO64;
    QuotientIs(s + x, TWO64, t, y);
  }
}

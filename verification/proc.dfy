/** kernel/arch/x64/proc.c: building the address space of a task. */
module Proc {
  import opened Structures
  import opened Wrappers
  import opened Worlds
  import opened PhysicalMemory
  import opened Runs
  import opened History
  import opened Ranges
  import opened Mem
  import opened Paging
  import opened KernelMap

  const STACK_VIRT: Word := FLUX_BASE_VIRT - 4096
  const STACK_PAGE := 0xF_FFF7_FFFF
  const STACK_FLAGS := PSE_WRITEABLE + PSE_USER_MODE
  const CODE_FLAGS := PSE_USER_MODE

  /** Where `*pml4` is: a variable outside the frames of the pool, or the first word of a frame. */
  datatype Pointer = Variable | InFrame(frame: nat)

  function StackOp(root: nat, stack: nat): Op
    requires stack < FRAME_LIMIT
  {
    Map(root, 4096 * stack, STACK_VIRT, STACK_FLAGS)
  }

  /** The maps of init_task_space_from_mem. */
  function TaskMaps(root: nat, stack: nat, pmem: Word, n: nat): seq<Op>
    requires stack < FRAME_LIMIT
  {
    [StackOp(root, stack)] + RangeOps(root, pmem, 0, n, CODE_FLAGS)
  }

  /** All of its operations: a root, a frame for the stack, the maps. */
  function TaskOps(root: nat, stack: nat, pmem: Word, n: nat): seq<Op>
    requires stack < FRAME_LIMIT
  {
    [NewRoot] + ([Get] + TaskMaps(root, stack, pmem, n))
  }

  /** The loop over the blocks of the executable. */
  method MapBlocks(pool: FramePool, pml4: Word, pmemOffset: Word, nBlocks: Word)
    requires pool.Valid() && pml4 % 4096 == 0
    requires Run(pool.world, RangeOps(pml4 / 4096, pmemOffset, 0, nBlocks, CODE_FLAGS)).Some?
    modifies pool, pool.mem
    ensures pool.Valid() && pool.usable == old(pool.usable) && pool.world.held == old(pool.world.held)
    ensures Spares(pool.usable, pool.world.held, old(pool.mem[..]), pool.mem[..])
    ensures Run(old(pool.world), RangeOps(pml4 / 4096, pmemOffset, 0, nBlocks, CODE_FLAGS)) == Some(pool.world)
  {
    hide Step, Run, RangeOps, Holds, Wrap, Spares, MapShows;
    ghost var m0 := pool.mem[..];
    SparesSelf(pool.usable, pool.world.held, m0);
    ghost var w0, root := pool.world, pml4 / 4096;
    RangeStart(w0, root, pmemOffset, 0, CODE_FLAGS);
    var bn := 0;
    while bn < nBlocks
      invariant 0 <= bn <= nBlocks
      invariant pool.Valid() && pool.usable == old(pool.usable) && pool.world.held == old(pool.world.held)
      invariant Spares(pool.usable, pool.world.held, m0, pool.mem[..])
      invariant Run(w0, RangeOps(root, pmemOffset, 0, bn, CODE_FLAGS)) == Some(pool.world)
    {
      RangeNext(w0, pool.world, root, pmemOffset, 0, bn, nBlocks, CODE_FLAGS);
      ghost var m := pool.mem[..];
      MapPageSpecificPml4(pool, pml4, Wrap(pmemOffset + 4096 * bn), Wrap(4096 * bn), PSE_USER_MODE);
      SparesTwice(pool.usable, pool.world.held, m0, m, pool.mem[..]);
      bn := bn + 1;
    }
  }

  /** Nothing outside the pool's own frames has changed, but for the word in which the caller wanted the
      root's address. */
  ghost predicate OnlyDest(usable: set<nat>, held: set<nat>, m: Memory, m': Memory, dest: Pointer) {
    |m'| == |m| && forall k: nat | k < |m| && (k / 512 !in usable || k / 512 in held) ::
      (dest.InFrame? && k == 512 * dest.frame) || m'[k] == m[k]
  }

  lemma DestStays(usable: set<nat>, held: set<nat>, m: Memory, m1: Memory, m': Memory, dest: Pointer, x: Word)
    requires m1 == if dest.InFrame? && 512 * dest.frame < |m| then m[512 * dest.frame := x] else m
    requires Spares(usable, held, m1, m')
    ensures OnlyDest(usable, held, m, m', dest)
    ensures dest.InFrame? && dest.frame in held && 512 * dest.frame < |m| ==> m'[512 * dest.frame] == x
  {
    if dest.InFrame? {
      var k: nat := 512 * dest.frame;
      assert k / 512 == dest.frame;
    }
  }

  /** A store to the first word of a frame that was handed out. */
  method StoreFirstWord(pool: FramePool, f: nat, x: Word)
    requires pool.Valid() && f in pool.world.held
    modifies pool.mem
    ensures pool.Valid() && 512 * f < pool.mem.Length && pool.mem[..] == old(pool.mem[..])[512 * f := x]
  {
    assert FrameOk(f, pool.mem.Length);
    ghost var m := pool.mem[..];
    pool.mem[512 * f] := x;
    WriteHeld(m, pool.mem[..], pool.firstPageFrame, pool.nFreePageFrames, pool.usable, pool.world, f);
  }

  /** Build an address space: the root, a stack page below the kernel, and nBlocks executable pages
      from virtual address 0. */
  method InitTaskSpaceFromMem(pool: FramePool, dest: Pointer, pmemOffset: Word, nBlocks: Word) returns (pml4: Word)
    requires pool.Valid() && (dest.InFrame? ==> dest.frame in pool.world.held)
    requires |pool.world.free| >= 2
    requires pool.world.free[1] < FRAME_LIMIT ==>
      Run(pool.world, TaskOps(pool.world.free[0], pool.world.free[1], pmemOffset, nBlocks)).Some?
    modifies pool, pool.mem
    ensures pool.Valid() && pool.usable == old(pool.usable)
    ensures forall k: nat | k < pool.mem.Length && (k / 512 !in pool.usable || k / 512 in old(pool.world.held)) ::
      (dest.InFrame? && k == 512 * dest.frame) || pool.mem[k] == old(pool.mem[k])
    ensures dest.InFrame? ==> 512 * dest.frame < pool.mem.Length && pool.mem[512 * dest.frame] == pml4
    ensures pml4 == 4096 * old(pool.world.free[0]) == old(pool.firstPageFrame) && old(pool.world.free[1]) < FRAME_LIMIT
    ensures nBlocks <= 0xF_FFF7_FFFF ==> TaskSeen(pool.mem[..], pml4 / 4096, old(pool.world.free[1]), pmemOffset, nBlocks)
    ensures Run(old(pool.world), TaskOps(pml4 / 4096, old(pool.world.free[1]), pmemOffset, nBlocks)) == Some(pool.world)
    ensures forall vaddr: Word ::
      Walk(pool.mem[..], pml4 / 4096, vaddr)
      == Expected(TaskMaps(pml4 / 4096, old(pool.world.free[1]), pmemOffset, nBlocks), pml4 / 4096, vaddr)
  {
    hide Run, RangeOps, Holds, Wrap, MapPage, Walk, Expected, Spares, MapShows, TaskSeen;
    ghost var w, m0 := pool.world, pool.mem[..];
    HoldsWorld(pool.mem[..], pool.firstPageFrame, pool.nFreePageFrames, pool.usable, w);
    ghost var root, stack := w.free[0], w.free[1];
    HeadOfList(pool.mem[..], pool.firstPageFrame, pool.nFreePageFrames, pool.usable, w);
    assert FrameOk(stack, pool.mem.Length);
    pml4 := NewPml4(pool);
    ghost var w1 := pool.world;
    if dest.InFrame? {
      StoreFirstWord(pool, dest.frame, pml4);
    }
    ghost var m1 := pool.mem[..];
    assert m1 == if dest.InFrame? && 512 * dest.frame < |m0| then m0[512 * dest.frame := pml4] else m0;
    HeadOfList(pool.mem[..], pool.firstPageFrame, pool.nFreePageFrames, pool.usable, w1);
    var stackBlockStart := pool.GetPhysBlock();
    ghost var w2, maps := pool.world, TaskMaps(root, stack, pmemOffset, nBlocks);
    RunOne(w, w1, NewRoot, [Get] + maps);
    RunOne(w1, w2, Get, maps);
    RunHead(w2, StackOp(root, stack), RangeOps(root, pmemOffset, 0, nBlocks, CODE_FLAGS));
    MapPageSpecificPml4(pool, pml4, stackBlockStart, FLUX_BASE_VIRT - 4096, PSE_WRITEABLE + PSE_USER_MODE);
    RunOne(w2, pool.world, StackOp(root, stack), RangeOps(root, pmemOffset, 0, nBlocks, CODE_FLAGS));
    ghost var m2 := pool.mem[..];
    MapBlocks(pool, pml4, pmemOffset, nBlocks);
    SparesTwice(pool.usable, w2.held, m1, m2, pool.mem[..]);
    SparesFewer(pool.usable, w2.held, w.held, m1, pool.mem[..]);
    DestStays(pool.usable, w.held, m0, m1, pool.mem[..], dest, pml4);
    forall vaddr: Word ensures Walk(pool.mem[..], root, vaddr) == Expected(maps, root, vaddr) {
      TaskWalk(pool.mem[..], pool.firstPageFrame, pool.nFreePageFrames, pool.usable, w, pmemOffset, nBlocks, vaddr);
    }
    if nBlocks <= 0xF_FFF7_FFFF {
      TaskIsSeen(pool.mem[..], pool.firstPageFrame, pool.nFreePageFrames, pool.usable, w, pmemOffset, nBlocks);
    }
  }

  // ---------- Where a task's pages go ----------

  lemma StackPage()
    ensures PageOf(STACK_VIRT) == STACK_PAGE && PageOf(0) == 0
  {
  }

  lemma StackHistory(root: nat, stack: nat, n: Node)
    requires stack < FRAME_LIMIT
    ensures FirstFlags([StackOp(root, stack)], n) == if Touches(StackOp(root, stack), n) then Some(STACK_FLAGS) else None
    ensures LastWrite([StackOp(root, stack)], n) ==
      if Touches(StackOp(root, stack), n) then Some(MakeEntry(4096 * stack, STACK_FLAGS)) else None
  {
    hide Touches, MakeEntry;
    var ops := [StackOp(root, stack)];
    assert ops[..|ops| - 1] == [];
  }

  /** The last write of each page: the executable's blocks come after the stack. */
  lemma TaskWrite(root: nat, stack: nat, pmem: Word, n: nat, v: nat)
    requires stack < FRAME_LIMIT && n <= PAGE_COUNT
    ensures LastWrite(TaskMaps(root, stack, pmem, n), NodeAt(root, v, 0)) ==
      if v < n then Some(RangeEntry(pmem, 0, CODE_FLAGS, v))
      else if v == STACK_PAGE then Some(MakeEntry(4096 * stack, STACK_FLAGS)) else None
  {
    hide RangeEntry, MakeEntry, PageOf;
    StackPage();
    HistoryConcat([StackOp(root, stack)], RangeOps(root, pmem, 0, n, CODE_FLAGS), NodeAt(root, v, 0));
    StackHistory(root, stack, NodeAt(root, v, 0));
    RangeWrites(root, pmem, 0, n, CODE_FLAGS, root, v);
  }

  /** Every table of a task was made with the stack's or the executable's flags; those on the way to
      the stack with the stack's. */
  lemma TaskTables(root: nat, stack: nat, pmem: Word, n: nat, t: Node)
    requires stack < FRAME_LIMIT
    ensures var f := FirstFlags(TaskMaps(root, stack, pmem, n), t);
      && (f.Some? ==> f.value == STACK_FLAGS || f.value == CODE_FLAGS)
      && (Touches(StackOp(root, stack), t) ==> f == Some(STACK_FLAGS))
  {
    hide Touches, RangeOps;
    var ops := RangeOps(root, pmem, 0, n, CODE_FLAGS);
    HistoryConcat([StackOp(root, stack)], ops, t);
    StackHistory(root, stack, t);
    RangeMaps(root, pmem, 0, n, CODE_FLAGS);
    MapsOfLegal(World([], {}, map[], map[]), ops, root, CODE_FLAGS);
    UniformFlags(ops, CODE_FLAGS, t);
  }

  lemma StackTouches(root: nat, stack: nat, level: nat)
    requires stack < FRAME_LIMIT && level <= 3
    ensures Touches(StackOp(root, stack), NodeAt(root, STACK_PAGE, level))
  {
    StackPage();
  }

  lemma FlagRights()
    ensures Writeable(STACK_FLAGS) && UserMode(STACK_FLAGS) && !Writeable(CODE_FLAGS) && UserMode(CODE_FLAGS)
  {
  }

  /** A task's address space: the page below the kernel is the stack's frame, writable; page k of the
      executable is the k-th block and never writable, though both may share tables; all else faults. */
  lemma TaskTranslates(root: nat, stack: nat, pmem: Word, n: nat, vaddr: Word)
    requires stack < FRAME_LIMIT && n <= STACK_PAGE
    ensures var v := PageOf(vaddr);
      Expected(TaskMaps(root, stack, pmem, n), root, vaddr) ==
      if v == STACK_PAGE then Mapped(4096 * stack + PageOffset(vaddr), true, true)
      else if v < n then Mapped(PsePtr(Wrap(pmem + 4096 * v)) + PageOffset(vaddr), false, true)
      else Fault
  {
    hide PageOf, Wrap, PsePtr, Writeable, UserMode, MakeEntry, NodeAt, Touches, TaskMaps, StackOp;
    var v, ops := PageOf(vaddr), TaskMaps(root, stack, pmem, n);
    StackPage();
    FlagRights();
    TaskWrite(root, stack, pmem, n, v);
    forall level: nat | 1 <= level <= 3
      ensures LastWrite(ops, NodeAt(root, v, 0)).Some? ==> FirstFlags(ops, NodeAt(root, v, level)).Some?
      ensures var f := FirstFlags(ops, NodeAt(root, v, level));
        && (f.Some? ==> f.value == STACK_FLAGS || f.value == CODE_FLAGS)
        && (v == STACK_PAGE ==> f == Some(STACK_FLAGS))
    {
      TaskTables(root, stack, pmem, n, NodeAt(root, v, level));
      StackTouches(root, stack, level);
      if LastWrite(ops, NodeAt(root, v, 0)).Some? {
        WrittenPath(ops, root, v, level);
      }
    }
    EntryFields(4096 * stack, STACK_FLAGS);
    PointerField(4096 * stack, stack, 0);
    EntryFields(Wrap(pmem + 4096 * v), CODE_FLAGS);
  }

  /** Byte x of the executable, when its memory is page-aligned and addressable. */
  lemma CodeByte(root: nat, stack: nat, pmem: Word, n: nat, x: Word)
    requires stack < FRAME_LIMIT && n <= STACK_PAGE && x / 4096 < n
    requires pmem % 4096 == 0 && pmem + x < 0x10_0000_0000_0000
    ensures Expected(TaskMaps(root, stack, pmem, n), root, x) == Mapped(pmem + x, false, true)
  {
    hide TaskMaps, Expected, PageOf, Wrap, PsePtr, MakeEntry;
    StackPage();
    TaskTranslates(root, stack, pmem, n, x);
    RangeByte(pmem, 0, n, CODE_FLAGS, x);
    WrapSmall(x);
    EntryFields(Wrap(pmem + 4096 * PageOf(x)), CODE_FLAGS);
  }

  lemma PageOfIndex(k: nat)
    requires k < PAGE_COUNT
    ensures PageOf(Wrap(4096 * k)) == k
  {
    WrapSmall(4096 * k);
    QuotientIs(4096 * k, 4096, k, 0);
  }

  /** A range that goes on past a page writes it, though it may wrap around and write it again. */
  lemma {:induction false} RangeReaches(root: nat, pmem: Word, n: nat, flags: nat, v: nat)
    requires v < n && v < PAGE_COUNT && flags < 4096
    ensures LastWrite(RangeOps(root, pmem, 0, n, flags), NodeAt(root, v, 0)).Some?
  {
    hide MakeEntry, PageOf, Wrap, LastWrite;
    var k := n - 1;
    var init, op := RangeOps(root, pmem, 0, k, flags), Map(root, Wrap(pmem + 4096 * k), Wrap(4096 * k), flags);
    HistorySnoc(init, op, NodeAt(root, v, 0));
    if k == v {
      PageOfIndex(k);
    } else {
      RangeReaches(root, pmem, k, flags, v);
    }
  }

  /** The stack page stays writable exactly when the executable does not reach it. */
  lemma StackSurvives(root: nat, stack: nat, pmem: Word, n: nat)
    requires stack < FRAME_LIMIT
    ensures var t := Expected(TaskMaps(root, stack, pmem, n), root, STACK_VIRT);
      t.Mapped? && t.writable <==> n <= STACK_PAGE
  {
    StackPage();
    if n <= STACK_PAGE {
      TaskTranslates(root, stack, pmem, n, STACK_VIRT);
    } else {
      hide PageOf, NodeAt, RangeOps, LastWrite;
      var leaf, ops := NodeAt(root, STACK_PAGE, 0), RangeOps(root, pmem, 0, n, CODE_FLAGS);
      FlagRights();
      RangeReaches(root, pmem, n, CODE_FLAGS, STACK_PAGE);
      HistoryConcat([StackOp(root, stack)], ops, leaf);
      RangeMaps(root, pmem, 0, n, CODE_FLAGS);
      MapsOfLegal(World([], {}, map[], map[]), ops, root, CODE_FLAGS);
      UniformFlags(ops, CODE_FLAGS, leaf);
      RightsOfBits(LastWrite(ops, leaf).value, CODE_FLAGS);
    }
  }

  // ---------- What a task's address space costs ----------

  /** The pages that n blocks reach: page numbers have 36 bits and then start again. */
  function Reach(n: nat): nat {
    if n <= PAGE_COUNT then n else PAGE_COUNT
  }

  /** How many of the stack's tables the executable does not reach: from the top, those below entry
      511 of the PML4, entry 509 of its PDPT and entry 511 of its page directory. */
  function StackOnly(n: nat): nat {
    (if n <= 0xF_F800_0000 then 1 else 0) + (if n <= 0xF_FFF4_0000 then 1 else 0) + (if n <= 0xF_FFF7_FE00 then 1 else 0)
  }

  /** The tables of a task below its root: those of the executable, and those of the stack's three
      that the executable does not reach; three more exactly when they share none. */
  lemma TaskTableCount(root: nat, stack: nat, pmem: Word, n: nat)
    requires stack < FRAME_LIMIT
    ensures var c := |PathAll(TaskMaps(root, stack, pmem, n))|;
      && c == RangeCost(0, Reach(n)) + StackOnly(n)
      && (c == RangeCost(0, Reach(n)) + 3 <==> n <= 0xF_F800_0000)
    ensures forall t :: t in PathAll(TaskMaps(root, stack, pmem, n)) ==> t.root == root
  {
    hide StackOp, RangeOps, Up, Tables, Path, RangeCost, NodeAt, TouchesTables;
    var op, ops := StackOp(root, stack), RangeOps(root, pmem, 0, n, CODE_FLAGS);
    var T := PathAll(ops);
    PathAllConcat([op], ops);
    PathAllOne(op);
    StackPath(root, stack);
    CodeTables(root, pmem, n);
    StackMeetsCode(root, n);
    AddThree(T, NodeAt(root, STACK_PAGE, 1), NodeAt(root, STACK_PAGE, 2), NodeAt(root, STACK_PAGE, 3));
    assert Path(op) + T == T + PathNodes(root, STACK_PAGE);
  }

  lemma AddThree<N>(T: set<N>, a: N, b: N, c: N)
    requires a != b && b != c && a != c
    ensures |T + ({a} + {b} + {c})| == |T| + (if a in T then 0 else 1) + (if b in T then 0 else 1) + (if c in T then 0 else 1)
  {
    AddOne(T, a);
    AddOne(T + {a}, b);
    AddOne(T + {a} + {b}, c);
    assert T + ({a} + {b} + {c}) == T + {a} + {b} + {c};
  }

  lemma AddOne<N>(T: set<N>, a: N)
    ensures |T + {a}| == |T| + (if a in T then 0 else 1)
  {
    if a in T {
      assert T + {a} == T;
    }
  }

  lemma StackPath(root: nat, stack: nat)
    requires stack < FRAME_LIMIT
    ensures Path(StackOp(root, stack)) == PathNodes(root, STACK_PAGE)
    ensures forall t :: t in PathNodes(root, STACK_PAGE) ==> t.root == root
    ensures forall i: nat, j: nat :: i < j <= 3 ==> NodeAt(root, STACK_PAGE, i) != NodeAt(root, STACK_PAGE, j)
  {
    StackPage();
    PathIsNodes(StackOp(root, stack));
  }

  /** The executable's tables are those of the pages it reaches. */
  function CodeNodes(root: nat, n: nat): set<Node> {
    if n == 0 then {} else Tables(root, 0, Reach(n) - 1)
  }

  lemma CodeTables(root: nat, pmem: Word, n: nat)
    ensures var T := PathAll(RangeOps(root, pmem, 0, n, CODE_FLAGS));
      T == CodeNodes(root, n) && |T| == RangeCost(0, Reach(n)) && forall t :: t in T ==> t.root == root
  {
    hide PageOf, RangeOps, Tables, RangeCost;
    StackPage();
    if n == 0 {
      RangeNone(root, pmem, 0, n, CODE_FLAGS);
      RangeCostNone(0, n);
    } else {
      CodePath(root, pmem, n);
      TablesSize(root, 0, Reach(n));
    }
  }

  lemma {:induction false} CodePath(root: nat, pmem: Word, n: nat)
    requires n >= 1
    ensures PathAll(RangeOps(root, pmem, 0, n, CODE_FLAGS)) == Tables(root, 0, Reach(n) - 1)
  {
    hide PageOf, Path, Tables, RangeOps, Wrap;
    StackPage();
    if n <= PAGE_COUNT {
      RangePath(root, pmem, 0, n, CODE_FLAGS, 0, n - 1);
    } else {
      CodePath(root, pmem, n - 1);
      CodePathNext(root, pmem, n);
    }
  }

  /** Past the last page the range starts again and needs no new table. */
  lemma CodePathNext(root: nat, pmem: Word, n: nat)
    requires n > PAGE_COUNT
    requires PathAll(RangeOps(root, pmem, 0, n - 1, CODE_FLAGS)) == Tables(root, 0, PAGE_COUNT - 1)
    ensures PathAll(RangeOps(root, pmem, 0, n, CODE_FLAGS)) == Tables(root, 0, PAGE_COUNT - 1)
  {
    hide PageOf, Path, Tables, PathAll, PathNodes, Wrap;
    var k := n - 1;
    var op := Map(root, Wrap(pmem + 4096 * k), Wrap(4096 * k), CODE_FLAGS);
    PathAllSnoc(RangeOps(root, pmem, 0, k, CODE_FLAGS), op);
    PathIsNodes(op);
    PathInside(root, op.vaddr);
  }

  lemma PathInside(root: nat, vaddr: Word)
    ensures PathNodes(root, PageOf(vaddr)) <= Tables(root, 0, PAGE_COUNT - 1)
  {
    var v := PageOf(vaddr);
    UpMonotone(v, PAGE_COUNT - 1);
    TablesHas(root, v, PAGE_COUNT - 1);
  }

  /** A page's tables are among those of the pages 0 to z exactly where its prefix does not exceed z's. */
  lemma TablesHas(root: nat, v: nat, z: nat)
    ensures forall l: nat :: 1 <= l <= 3 ==> (NodeAt(root, v, l) in Tables(root, 0, z) <==> Up(v, l) <= Up(z, l))
  {
    assert Up(0, 1) == 0 && Up(0, 2) == 0 && Up(0, 3) == 0;
    hide Up, Band;
    BandExact(root, 1, 0, Up(z, 1));
    BandExact(root, 2, 0, Up(z, 2));
    BandExact(root, 3, 0, Up(z, 3));
  }

  lemma StackMeetsCode(root: nat, n: nat)
    ensures NodeAt(root, STACK_PAGE, 3) in CodeNodes(root, n) <==> n > 0xF_F800_0000
    ensures NodeAt(root, STACK_PAGE, 2) in CodeNodes(root, n) <==> n > 0xF_FFF4_0000
    ensures NodeAt(root, STACK_PAGE, 1) in CodeNodes(root, n) <==> n > 0xF_FFF7_FE00
  {
    hide Tables, NodeAt;
    if n > 0 {
      TablesHas(root, STACK_PAGE, Reach(n) - 1);
    }
  }

  /** Building a task's space succeeds exactly when the pool has a root, a stack frame and one frame
      for each table; it takes exactly these, in list order. */
  lemma TaskCost(usable: set<nat>, size: nat, w: World, pmem: Word, n: nat)
    requires WorldOk(usable, size, w) && |w.free| >= 2 && w.free[1] < FRAME_LIMIT
    ensures var r := Run(w, TaskOps(w.free[0], w.free[1], pmem, n));
            var c := 2 + |PathAll(TaskMaps(w.free[0], w.free[1], pmem, n))|;
      && (r.Some? <==> c <= |w.free|)
      && (r.Some? ==> r.value.free == w.free[c..])
  {
    hide Run, TaskMaps, Path, Step;
    var root, stack := w.free[0], w.free[1];
    var maps := TaskMaps(root, stack, pmem, n);
    TakeTwo(usable, size, w);
    var w1 := Step(w, NewRoot).value;
    var w2 := Step(w1, Get).value;
    RunOne(w, w1, NewRoot, [Get] + maps);
    RunOne(w1, w2, Get, maps);
    TaskLegal(w2, root, stack, pmem, n);
    RunCost(usable, size, w2, maps);
    TaskFresh(w2, root, stack, pmem, n);
    var c := |PathAll(maps)|;
    if c <= |w2.free| {
      assert w.free[2..][c..] == w.free[2 + c..];
    }
  }

  lemma TakeTwo(usable: set<nat>, size: nat, w: World)
    requires WorldOk(usable, size, w) && |w.free| >= 2
    ensures Step(w, NewRoot).Some? && Step(Step(w, NewRoot).value, Get).Some?
    ensures var w2 := Step(Step(w, NewRoot).value, Get).value;
      WorldOk(usable, size, w2) && IsRoot(w2, w.free[0]) && EmptySpace(w2, w.free[0]) && w2.free == w.free[2..]
      && w2.held == w.held + {w.free[1]}
  {
    hide WorldOk;
    StepKeeps(usable, size, w, NewRoot);
    StepKeeps(usable, size, Step(w, NewRoot).value, Get);
    NewSpaceEmpty(usable, size, w);
    HeadApart(usable, size, w);
  }

  lemma HeadApart(usable: set<nat>, size: nat, w: World)
    requires WorldOk(usable, size, w) && w.free != []
    ensures w.held + {w.free[0]} - {w.free[0]} == w.held
  {
    assert w.free[0] in w.free;
  }

  lemma TaskLegal(w: World, root: nat, stack: nat, pmem: Word, n: nat)
    requires IsRoot(w, root) && stack < FRAME_LIMIT
    ensures AllLegal(w, TaskMaps(root, stack, pmem, n))
  {
    var ops := RangeOps(root, pmem, 0, n, CODE_FLAGS);
    RangeMaps(root, pmem, 0, n, CODE_FLAGS);
    MapsOfLegal(w, ops, root, CODE_FLAGS);
    assert forall i :: 1 <= i < |TaskMaps(root, stack, pmem, n)| ==> TaskMaps(root, stack, pmem, n)[i] == ops[i - 1];
  }

  lemma TaskFresh(w: World, root: nat, stack: nat, pmem: Word, n: nat)
    requires EmptySpace(w, root) && stack < FRAME_LIMIT
    ensures PathAll(TaskMaps(root, stack, pmem, n)) - TableNodes(w) == PathAll(TaskMaps(root, stack, pmem, n))
  {
    hide RangeOps, Path;
    RangeMaps(root, pmem, 0, n, CODE_FLAGS);
    PathAllRooted(TaskMaps(root, stack, pmem, n), root);
  }

  /** The walk of the memory that building a task's space leaves behind. */
  lemma TaskWalk(m: Memory, first: nat, count: nat, usable: set<nat>, w: World, pmem: Word, n: nat, vaddr: Word)
    requires WorldOk(usable, |m|, w) && |w.free| >= 2 && w.free[1] < FRAME_LIMIT
    requires var r := Run(w, TaskOps(w.free[0], w.free[1], pmem, n)); r.Some? && Holds(m, first, count, usable, r.value)
    ensures Walk(m, w.free[0], vaddr) == Expected(TaskMaps(w.free[0], w.free[1], pmem, n), w.free[0], vaddr)
  {
    hide Run, TaskMaps, Step, Expected, Walk, Holds;
    var root, maps := w.free[0], TaskMaps(w.free[0], w.free[1], pmem, n);
    TakeTwo(usable, |m|, w);
    var w1 := Step(w, NewRoot).value;
    var w2 := Step(w1, Get).value;
    RunOne(w, w1, NewRoot, [Get] + maps);
    RunOne(w1, w2, Get, maps);
    RunKeeps(usable, |m|, w2, maps);
    MemoryTranslates(m, first, count, usable, w2, maps, root, vaddr);
  }

  // ---------- A task's address space in numbers ----------

  /** The frame of block v of the executable. */
  function BlockAt(pmem: Word, v: nat): nat {
    (pmem + 4096 * v) % 0x1_0000_0000_0000_0000 % 0x10_0000_0000_0000 / 4096 * 4096
  }

  /** What the processor sees of page v: the stack at 0xffffffff7ffff000, readable and writable, the
      executable's pages from 0, never writable, and nothing else; the leaf words have the low bits 7
      and 5. */
  predicate PageSeen(m: Memory, root: nat, stack: nat, pmem: Word, n: nat, vaddr: Word) {
    var (v, t, words) := (vaddr / 4096 % 0x10_0000_0000, Walk(m, root, vaddr), WalkWords(m, root, vaddr));
    if v == 0xF_FFF7_FFFF then
      t == Mapped(4096 * stack + vaddr % 4096, true, true) && |words| == 4 && words[3] % 4096 == 7
    else if v < n then
      && t == Mapped(BlockAt(pmem, v) + vaddr % 4096, false, true)
      && |words| == 4 && words[3] % 4096 == 5
    else t == Fault
  }

  ghost predicate TaskSeen(m: Memory, root: nat, stack: nat, pmem: Word, n: nat) {
    forall vaddr: Word :: PageSeen(m, root, stack, pmem, n, vaddr)
  }

  lemma TaskIsSeen(m: Memory, first: nat, count: nat, usable: set<nat>, w: World, pmem: Word, n: nat)
    requires WorldOk(usable, |m|, w) && |w.free| >= 2 && w.free[1] < FRAME_LIMIT && n <= 0xF_FFF7_FFFF
    requires var r := Run(w, TaskOps(w.free[0], w.free[1], pmem, n)); r.Some? && Holds(m, first, count, usable, r.value)
    ensures TaskSeen(m, w.free[0], w.free[1], pmem, n)
  {
    hide Run, TaskOps, Holds, WorldOk, PageSeen, Walk, WalkWords;
    forall vaddr: Word ensures PageSeen(m, w.free[0], w.free[1], pmem, n, vaddr) {
      TaskWords(m, first, count, usable, w, pmem, n, vaddr);
      TaskWalk(m, first, count, usable, w, pmem, n, vaddr);
      TaskTranslates(w.free[0], w.free[1], pmem, n, vaddr);
      PageIsSeen(m, w.free[0], w.free[1], pmem, n, vaddr);
    }
  }

  /** The leaf word of a page, as its last map made it. */
  lemma TaskWords(m: Memory, first: nat, count: nat, usable: set<nat>, w: World, pmem: Word, n: nat, vaddr: Word)
    requires WorldOk(usable, |m|, w) && |w.free| >= 2 && w.free[1] < FRAME_LIMIT && n <= STACK_PAGE
    requires var r := Run(w, TaskOps(w.free[0], w.free[1], pmem, n)); r.Some? && Holds(m, first, count, usable, r.value)
    ensures var (v, words) := (PageOf(vaddr), WalkWords(m, w.free[0], vaddr));
      v == STACK_PAGE || v < n ==> |words| == 4 && words[3] % 4096 == (if v == STACK_PAGE then 7 else 5)
  {
    hide Run, TaskMaps, Step, WalkWords, Holds, PageOf, LastWrite, FirstFlags, NodeAt, TableWord;
    var v, root, stack := PageOf(vaddr), w.free[0], w.free[1];
    var maps := TaskMaps(root, stack, pmem, n);
    TakeTwo(usable, |m|, w);
    var w1 := Step(w, NewRoot).value;
    var w2 := Step(w1, Get).value;
    RunOne(w, w1, NewRoot, [Get] + maps);
    RunOne(w1, w2, Get, maps);
    RunKeeps(usable, |m|, w2, maps);
    TaskWrite(root, stack, pmem, n, v);
    EntryFields(4096 * stack, STACK_FLAGS);
    if v == STACK_PAGE || v < n {
      MemoryWords(m, first, count, usable, w2, maps, root, vaddr);
      CodeEntryBits(pmem, v);
    }
  }

  lemma CodeEntryBits(pmem: Word, v: nat)
    ensures PageOf(0) <= v && RangeEntry(pmem, 0, CODE_FLAGS, v) % 4096 == 5
  {
    StackPage();
    hide PageOf, MakeEntry, PsePtr, Wrap;
    EntryFields(Wrap(pmem + 4096 * v), CODE_FLAGS);
  }

  lemma PageIsSeen(m: Memory, root: nat, stack: nat, pmem: Word, n: nat, vaddr: Word)
    requires n <= STACK_PAGE
    requires var v := PageOf(vaddr);
      Walk(m, root, vaddr) ==
      if v == STACK_PAGE then Mapped(4096 * stack + PageOffset(vaddr), true, true)
      else if v < n then Mapped(PsePtr(Wrap(pmem + 4096 * v)) + PageOffset(vaddr), false, true)
      else Fault
    requires var (v, words) := (PageOf(vaddr), WalkWords(m, root, vaddr));
      v == STACK_PAGE || v < n ==> |words| == 4 && words[3] % 4096 == (if v == STACK_PAGE then 7 else 5)
    ensures PageSeen(m, root, stack, pmem, n, vaddr)
  {
    hide Walk, WalkWords;
  }
}

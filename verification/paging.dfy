/** kernel/arch/x64/paging.c: building the tables of an address space. */
module Paging {
  import opened Structures
  import opened Wrappers
  import opened Worlds
  import opened PhysicalMemory
  import opened History
  import opened Mem

  /** Clear the 512 entries of a table that nothing points to yet. */
  method ZeroPagingStructure(pool: FramePool, table: Word)
    requires pool.Valid() && table % 4096 == 0 && table / 4096 in pool.world.held
    modifies pool.mem
    ensures pool.Valid()
    ensures OnlyFrame(old(pool.mem[..]), pool.mem[..], table / 4096)
    ensures forall k: nat :: 512 * (table / 4096) <= k < 512 * (table / 4096) + 512 ==> k < pool.mem.Length && pool.mem[k] == 0
    ensures NonePresent(pool.mem[..], table / 4096)
  {
    ghost var f, m := table / 4096, pool.mem[..];
    assert FrameOk(f, pool.mem.Length);
    assert table / 8 == 512 * f;
    var i := 0;
    while i < 512
      invariant 0 <= i <= 512
      invariant forall k: nat :: k < pool.mem.Length && !(512 * f <= k < 512 * f + 512) ==> pool.mem[k] == m[k]
      invariant forall k: nat :: 512 * f <= k < 512 * f + i ==> pool.mem[k] == 0
    {
      pool.mem[table / 8 + i] := 0;
      i := i + 1;
    }
    WriteHeld(m, pool.mem[..], pool.firstPageFrame, pool.nFreePageFrames, pool.usable, pool.world, f);
    forall j: nat | j < 512 ensures Quiet(pool.mem[..], f, j) {
    }
  }

  /** Take a frame for a PML4.  Its words are left as they are: none of them has the present bit. */
  method NewPml4(pool: FramePool) returns (pml4: Word)
    requires pool.Valid() && pool.firstPageFrame != 0
    modifies pool
    ensures pool.Valid() && pool.usable == old(pool.usable)
    ensures old(pool.world.free) != [] && pml4 == 4096 * old(pool.world.free[0]) == old(pool.firstPageFrame)
    ensures Step(old(pool.world), NewRoot) == Some(pool.world)
    ensures IsRoot(pool.world, pml4 / 4096) && EmptySpace(pool.world, pml4 / 4096)
    ensures pool.world.held == old(pool.world.held)
  {
    hide Holds;
    HeadOfList(pool.mem[..], pool.firstPageFrame, pool.nFreePageFrames, pool.usable, pool.world);
    FreeIsApart(pool.mem[..], pool.firstPageFrame, pool.nFreePageFrames, pool.usable, pool.world);
    pml4 := pool.GetPhysBlock();
    ghost var g := pml4 / 4096;
    AdoptHolds(pool.mem[..], pool.firstPageFrame, pool.nFreePageFrames, pool.usable, pool.world, g);
    pool.world := AdoptRoot(pool.world, g);
  }

  /** One level of the walk: follow entry `i` of a table, creating the table below if it is missing. */
  method FollowEntry(pool: FramePool, table: Word, i: nat, flags: nat, ghost n: Node) returns (next: Word)
    requires pool.Valid() && FlagsOk(flags) && i < 512
    requires table % 4096 == 0 && table / 4096 in pool.world.owner
    requires n == Child(pool.world.owner[table / 4096], i) && n.level >= 1
    requires EnsureTable(pool.world, n, flags).Some?
    modifies pool, pool.mem
    ensures pool.Valid() && pool.usable == old(pool.usable)
    ensures EnsureTable(old(pool.world), n, flags) == Some(pool.world)
    ensures Spares(pool.usable, old(pool.world.held), old(pool.mem[..]), pool.mem[..])
    ensures pool.world.held == old(pool.world.held)
    ensures next % 4096 == 0 && next / 4096 in pool.world.owner && pool.world.owner[next / 4096] == n
  {
    hide Holds, MakeEntry, PsePtr, Spares, PointsTo, NonePresent, OnlyFrame;
    ghost var f, w, m0 := table / 4096, pool.world, pool.mem[..];
    SparesSelf(pool.usable, w.held, m0);
    var k := table / 8 + i;
    assert k == 512 * f + i;
    SlotSays(m0, pool.firstPageFrame, pool.nFreePageFrames, pool.usable, w, f, i, n);
    if !Present(pool.mem[k]) {
      HeadOfList(m0, pool.firstPageFrame, pool.nFreePageFrames, pool.usable, w);
      FreeIsApart(m0, pool.firstPageFrame, pool.nFreePageFrames, pool.usable, w);
      NotSpared(m0, pool.firstPageFrame, pool.nFreePageFrames, pool.usable, w, f);
      NotSpared(m0, pool.firstPageFrame, pool.nFreePageFrames, pool.usable, w, w.free[0]);
      var newTable := pool.GetPhysBlock();
      ZeroPagingStructure(pool, newTable);
      ghost var g, w1, m := newTable / 4096, pool.world, pool.mem[..];
      var e := MakeEntry(newTable, flags);
      EntryPointsTo(g, flags);
      OwnerAbove(m, pool.firstPageFrame, pool.nFreePageFrames, pool.usable, w1, f);
      LinkHolds(m, m[512 * f + i := e], pool.firstPageFrame, pool.nFreePageFrames, pool.usable, w1, f, i, g, n, e);
      pool.mem[k] := e;
      assert pool.mem[..] == m[512 * f + i := e];
      pool.world := Link(w1, g, n, e);
      OneWord(m, pool.mem[..], f, i, e);
      FrameSpares(pool.usable, w.held, m0, m, g);
      FrameSpares(pool.usable, w.held, m, pool.mem[..], f);
      SparesTwice(pool.usable, w.held, m0, m, pool.mem[..]);
    }
    SlotSays(pool.mem[..], pool.firstPageFrame, pool.nFreePageFrames, pool.usable, pool.world, f, i, n);
    next := PsePtr(pool.mem[k]);
  }

  /** The entry in a slot above the leaves is present exactly when the table below exists, and then
      leads to it. */
  lemma SlotSays(m: Memory, first: nat, count: nat, usable: set<nat>, w: World, f: nat, i: nat, n: Node)
    requires Holds(m, first, count, usable, w) && f in w.owner && i < 512
    requires n == Child(w.owner[f], i) && n.level >= 1
    ensures 512 * f + i < |m|
    ensures var e := m[512 * f + i];
      && (Present(e) <==> n in w.ent)
      && (n in w.ent ==> PsePtr(e) % 4096 == 0 && PsePtr(e) < TWO64
                         && PsePtr(e) / 4096 in w.owner && w.owner[PsePtr(e) / 4096] == n)
  {
    assert SlotOk(m, w, f, i);
    if n in w.ent {
      assert EntryOk(w, n);
    }
  }

  lemma OwnerAbove(m: Memory, first: nat, count: nat, usable: set<nat>, w: World, f: nat)
    requires Holds(m, first, count, usable, w) && f in w.owner
    ensures 1 <= w.owner[f].level <= 4
  {
    assert OwnerOk(w, f);
  }

  lemma OwnerInside(m: Memory, first: nat, count: nat, usable: set<nat>, w: World, f: nat)
    requires Holds(m, first, count, usable, w) && f in w.owner
    ensures 512 * f + 512 <= |m|
  {
    assert FrameOk(f, |m|);
  }

  lemma OneWord(m: Memory, m': Memory, f: nat, i: nat, e: Word)
    requires i < 512 && 512 * f + i < |m| && m' == m[512 * f + i := e]
    ensures OnlyFrame(m, m', f)
  {
  }

  /** Map the page of `vaddr` to the frame of `paddr` in the address space of the given PML4. */
  method MapPageSpecificPml4(pool: FramePool, pml4Addr: Word, paddr: Word, vaddr: Word, flags: nat)
    requires pool.Valid() && pml4Addr % 4096 == 0
    requires Step(pool.world, Map(pml4Addr / 4096, paddr, vaddr, flags)).Some?
    modifies pool, pool.mem
    ensures pool.Valid() && pool.usable == old(pool.usable)
    ensures Spares(pool.usable, old(pool.world.held), old(pool.mem[..]), pool.mem[..])
    ensures pool.world.held == old(pool.world.held)
    ensures Step(old(pool.world), Map(pml4Addr / 4096, paddr, vaddr, flags)) == Some(pool.world)
    ensures MapShows(old(pool.mem[..]), pool.mem[..], old(pool.world), pml4Addr / 4096, paddr, vaddr, flags)
  {
    hide Step, Holds, MapPage, Spares, MapShows;
    ghost var usable, held, m0 := pool.usable, pool.world.held, pool.mem[..];
    ghost var w0, first0, count0 := pool.world, pool.firstPageFrame, pool.nFreePageFrames;
    ghost var n3, n2, n1, leaf := PathOfAddress(pool.world, pml4Addr / 4096, paddr, vaddr, flags);
    var pml4I, pdptI, pdtI, ptI := Pml4Index(vaddr), PdptIndex(vaddr), PdtIndex(vaddr), PtIndex(vaddr);
    assert IndexAt(4, vaddr) < 512 && IndexAt(3, vaddr) < 512 && IndexAt(2, vaddr) < 512 && IndexAt(1, vaddr) < 512;
    var pdpt := FollowEntry(pool, pml4Addr, pml4I, flags, n3);
    ghost var m3 := pool.mem[..];
    var pdt := FollowEntry(pool, pdpt, pdptI, flags, n2);
    ghost var m2 := pool.mem[..];
    SparesTwice(usable, held, m0, m3, m2);
    var pt := FollowEntry(pool, pdt, pdtI, flags, n1);
    ghost var m1 := pool.mem[..];
    SparesTwice(usable, held, m0, m2, m1);
    EntryFields(paddr, flags);
    NotSpared(m1, pool.firstPageFrame, pool.nFreePageFrames, usable, pool.world, pt / 4096);
    StoreLeaf(pool, pt, ptI, MakeEntry(paddr, flags), leaf);
    FrameSpares(usable, held, m1, pool.mem[..], pt / 4096);
    SparesTwice(usable, held, m0, m1, pool.mem[..]);
    MapSeen(m0, first0, count0, pool.mem[..], pool.firstPageFrame, pool.nFreePageFrames, usable, w0,
            pml4Addr / 4096, paddr, vaddr, flags);
  }

  /** Write entry i of a page table. */
  method StoreLeaf(pool: FramePool, table: Word, i: nat, e: Word, ghost leaf: Node)
    requires pool.Valid() && i < 512 && Present(e)
    requires table % 4096 == 0 && table / 4096 in pool.world.owner && pool.world.owner[table / 4096].level == 1
    requires leaf == Child(pool.world.owner[table / 4096], i)
    modifies pool`world, pool.mem
    ensures pool.Valid() && pool.world == SetLeaf(old(pool.world), leaf, e)
    ensures OnlyFrame(old(pool.mem[..]), pool.mem[..], table / 4096)
  {
    hide Holds, OnlyFrame, Present;
    ghost var f, m, w := table / 4096, pool.mem[..], pool.world;
    var k := table / 8 + i;
    assert k == 512 * f + i;
    OwnerInside(m, pool.firstPageFrame, pool.nFreePageFrames, pool.usable, w, f);
    LeafHolds(m, m[k := e], pool.firstPageFrame, pool.nFreePageFrames, pool.usable, w, f, i, leaf, e);
    pool.mem[k] := e;
    assert pool.mem[..] == m[k := e];
    pool.world := SetLeaf(w, leaf, e);
    OneWord(m, pool.mem[..], f, i, e);
  }
}

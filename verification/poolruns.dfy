/** The pool over runs: frames are conserved, none is handed out twice, and puts and gets nest. */
module PoolRuns {
  import opened Structures
  import opened Wrappers
  import opened Worlds
  import opened PhysicalMemory
  import opened Runs
  import opened Ranges
  import opened History
  import opened Mem
  import opened Paging

  // ---------- Conservation ----------

  /** Free, held and table frames add up to the usable frames. */
  lemma FramesAddUp(usable: set<nat>, size: nat, w: World)
    requires WorldOk(usable, size, w)
    ensures |usable| == |w.free| + |w.held| + |w.owner|
  {
    hide Shaped, FrameOk, SetOf;
    var free := SetOf(w.free);
    NoDuplicatesSize(w.free);
    PartitionUnion(usable, w);
    DisjointSize(free, w.held, w.owner.Keys);
  }

  lemma PartitionUnion(usable: set<nat>, w: World)
    requires Partition(usable, w)
    ensures usable == SetOf(w.free) + w.held + w.owner.Keys
    ensures SetOf(w.free) !! w.held && (SetOf(w.free) + w.held) !! w.owner.Keys
  {
    hide NoDuplicates;
  }

  /** In every state of every run the frames found at boot are all accounted for. */
  lemma FramesConserved(entries: seq<MemmapEntry>, size: nat, ops: seq<Op>)
    requires MemmapOk(entries, size) && Run(BootWorld(entries), ops).Some?
    ensures var w := Run(BootWorld(entries), ops).value;
      WorldOk(SetOf(Discovered(entries)), size, w) && TotalFrames(entries) == |w.free| + |w.held| + |w.owner|
  {
    hide Run, WorldOk;
    var usable := SetOf(Discovered(entries));
    BootOk(entries, size);
    RunKeeps(usable, size, BootWorld(entries), ops);
    FramesAddUp(usable, size, Run(BootWorld(entries), ops).value);
    DiscoveredOnce(entries, size);
    NoDuplicatesSize(Discovered(entries));
  }

  lemma BootOk(entries: seq<MemmapEntry>, size: nat)
    requires MemmapOk(entries, size)
    ensures WorldOk(SetOf(Discovered(entries)), size, BootWorld(entries))
  {
    var all := Discovered(entries);
    DiscoveredOnce(entries, size);
    ReverseNoDuplicates(all);
    ReverseSame(all);
    forall f: nat ensures f in SetOf(all) <==> f in all
                  ensures f in all ==> FrameOk(f, size) {
      DiscoveredMembers(entries, size, f);
    }
  }

  // ---------- No frame is handed out twice ----------

  lemma StepStaysOut(usable: set<nat>, size: nat, w: World, op: Op, f: nat)
    requires WorldOk(usable, size, w) && Step(w, op).Some? && f !in w.free && op != Release(f)
    ensures f !in Step(w, op).value.free
  {
    if op.Map? {
      MapStep(w, op);
    }
  }

  lemma {:induction false} StaysOut(usable: set<nat>, size: nat, w: World, ops: seq<Op>, f: nat)
    requires WorldOk(usable, size, w) && Run(w, ops).Some? && f !in w.free && Release(f) !in ops
    ensures f !in Run(w, ops).value.free
  {
    if ops != [] {
      hide Step, WorldOk;
      var init, op := ops[..|ops| - 1], ops[|ops| - 1];
      StaysOut(usable, size, w, init, f);
      RunKeeps(usable, size, w, init);
      StepStaysOut(usable, size, Run(w, init).value, op, f);
    }
  }

  /** Operation k of a run takes the frame off the free list: to return it, as a root, or as one of the
      tables that a map adds. */
  predicate HandsOut(w: World, ops: seq<Op>, k: nat, f: nat)
    requires k < |ops|
  {
    && Run(w, ops[..k]).Some? && f in Run(w, ops[..k]).value.free
    && Run(w, ops[..k + 1]).Some? && f !in Run(w, ops[..k + 1]).value.free
  }

  /** Between two operations that hand out the same frame, it was released, whatever else the run did. */
  lemma NoDoubleHandout(usable: set<nat>, size: nat, w: World, ops: seq<Op>, i: nat, j: nat, f: nat)
    requires WorldOk(usable, size, w) && Run(w, ops).Some? && i < j < |ops|
    requires HandsOut(w, ops, i, f) && HandsOut(w, ops, j, f)
    ensures exists k :: i < k < j && ops[k] == Release(f)
  {
    hide Step, WorldOk, Run;
    if forall k :: i < k < j ==> ops[k] != Release(f) {
      var between := ops[i + 1..j];
      assert ops[..j] == ops[..i + 1] + between;
      RunKeeps(usable, size, w, ops[..i + 1]);
      RunConcat(w, ops[..i + 1], between);
      assert Release(f) !in between;
      StaysOut(usable, size, Run(w, ops[..i + 1]).value, between, f);
      assert false;
    }
  }

  /** The frames a map hands out are its new tables, those of the other operations the one returned. */
  lemma HandsOutWhat(usable: set<nat>, size: nat, w: World, ops: seq<Op>, k: nat, f: nat)
    requires WorldOk(usable, size, w) && Run(w, ops).Some? && k < |ops|
    ensures Run(w, ops[..k]).Some? && Run(w, ops[..k + 1]).Some?
    ensures HandsOut(w, ops, k, f) <==>
      if ops[k].Map? then f !in Run(w, ops[..k]).value.owner && f in Run(w, ops[..k + 1]).value.owner
      else Returned(w, ops, k) == Some(f)
  {
    hide Step, WorldOk, Run;
    RunPrefix(w, ops, k);
    RunPrefix(w, ops, k + 1);
    var w1 := Run(w, ops[..k]).value;
    RunKeeps(usable, size, w, ops[..k]);
    assert ops[..k + 1] == ops[..k] + [ops[k]];
    RunSnoc(w, ops[..k], ops[k]);
    StepKeeps(usable, size, w1, ops[k]);
    StepHandsOut(usable, size, w1, ops[k], f);
  }

  lemma StepHandsOut(usable: set<nat>, size: nat, w: World, op: Op, f: nat)
    requires WorldOk(usable, size, w) && Step(w, op).Some?
    ensures var w' := Step(w, op).value;
      f in w.free && f !in w'.free <==>
      if op.Map? then f !in w.owner && f in w'.owner
      else (op == Get || op == NewRoot) && w.free != [] && w.free[0] == f
  {
    hide FrameOk, Shaped, MapPage, IsRoot;
    if op.Map? {
      hide Step;
      StepKeeps(usable, size, w, op);
      MapStep(w, op);
      SameHeld(usable, w, Step(w, op).value, f);
    } else if op == Get || op == NewRoot {
      TakenIsGone(usable, size, w, op);
      assert w.free == [w.free[0]] + w.free[1..];
    }
  }

  lemma SameHeld(usable: set<nat>, w: World, w': World, f: nat)
    requires Partition(usable, w) && Partition(usable, w') && w'.held == w.held
    ensures f in w.free && f !in w'.free ==> f !in w.owner && f in w'.owner
    ensures f !in w.owner && f in w'.owner ==> f in w.free && f !in w'.free
  {
    hide NoDuplicates;
    assert f in usable <==> f in w.free || f in w.held || f in w.owner;
    assert f in usable <==> f in w'.free || f in w'.held || f in w'.owner;
  }

  /** The frame that operation k of a run returns. */
  function Returned(w: World, ops: seq<Op>, k: nat): Option<nat>
    requires k < |ops|
  {
    if (ops[k] == Get || ops[k] == NewRoot) && Run(w, ops[..k]).Some? && Run(w, ops[..k]).value.free != []
    then Some(Run(w, ops[..k]).value.free[0]) else None
  }

  lemma TakenIsGone(usable: set<nat>, size: nat, w: World, op: Op)
    requires WorldOk(usable, size, w) && w.free != [] && (op == Get || op == NewRoot) && Step(w, op).Some?
    ensures w.free[0] !in Step(w, op).value.free
  {
    TakeKeeps(usable, size, w);
    var rest := w.free[1..];
    assert Step(w, op).value.free == rest;
    forall k | 0 <= k < |rest| ensures rest[k] != w.free[0] {
      assert rest[k] == w.free[k + 1];
    }
  }

  // ---------- Puts and gets nest ----------

  function Releases(fs: seq<nat>): seq<Op> {
    seq(|fs|, i requires 0 <= i < |fs| => Release(fs[i]))
  }

  function Gets(n: nat): seq<Op> {
    seq(n, _ => Get)
  }

  lemma {:induction false} ReleaseAll(w: World, fs: seq<nat>)
    requires NoDuplicates(fs) && forall f :: f in fs ==> f in w.held
    ensures Run(w, Releases(fs)) == Some(w.(free := Reverse(fs) + w.free, held := w.held - SetOf(fs)))
  {
    hide Run, Step;
    if fs == [] {
      assert Releases(fs) == [];
      assert Reverse(fs) + w.free == w.free && w.held - SetOf(fs) == w.held;
      NothingRun(w, []);
    } else {
      var init, f := fs[..|fs| - 1], fs[|fs| - 1];
      assert fs == init + [f] && f !in init;
      ReleaseAll(w, init);
      assert Releases(fs) == Releases(init) + [Release(f)];
      RunSnoc(w, Releases(init), Release(f));
      ReleaseOne(w, init, f);
    }
  }

  lemma ReleaseOne(w: World, init: seq<nat>, f: nat)
    requires f in w.held && f !in init
    ensures Step(w.(free := Reverse(init) + w.free, held := w.held - SetOf(init)), Release(f))
            == Some(w.(free := Reverse(init + [f]) + w.free, held := w.held - SetOf(init + [f])))
  {
    ReverseSnoc(init, f);
    assert [f] + (Reverse(init) + w.free) == ([f] + Reverse(init)) + w.free;
    assert w.held - SetOf(init) - {f} == w.held - SetOf(init + [f]);
  }

  lemma {:induction false} GetAll(w: World, n: nat)
    requires n <= |w.free|
    ensures Run(w, Gets(n)) == Some(w.(free := w.free[n..], held := w.held + SetOf(w.free[..n])))
  {
    if n == 0 {
      assert w.held + SetOf(w.free[..0]) == w.held;
    } else {
      var k := n - 1;
      GetAll(w, k);
      assert Gets(n) == Gets(k) + [Get];
      RunSnoc(w, Gets(k), Get);
      assert w.free[k..][0] == w.free[k] && w.free[k..][1..] == w.free[n..];
      assert w.free[..n] == w.free[..k] + [w.free[k]];
      assert w.held + SetOf(w.free[..k]) + {w.free[k]} == w.held + SetOf(w.free[..n]);
    }
  }

  lemma AfterPuts(w: World, fs: seq<nat>, k: nat)
    requires NoDuplicates(fs) && (forall f :: f in fs ==> f in w.held) && k <= |fs|
    ensures Run(w, Releases(fs) + Gets(k)) ==
      Some(w.(free := Reverse(fs)[k..] + w.free, held := (w.held - SetOf(fs)) + SetOf(Reverse(fs)[..k])))
  {
    hide Run, Reverse;
    var w1 := w.(free := Reverse(fs) + w.free, held := w.held - SetOf(fs));
    ReleaseAll(w, fs);
    ReverseSame(fs);
    GetAll(w1, k);
    RunConcat(w, Releases(fs), Gets(k));
    assert w1.free[..k] == Reverse(fs)[..k] && w1.free[k..] == Reverse(fs)[k..] + w.free;
  }

  /** Putting back frames and getting as many restores the world, and get number k returns the frame
      put k-th from the end. */
  lemma PutsThenGets(w: World, fs: seq<nat>, k: nat)
    requires NoDuplicates(fs) && (forall f :: f in fs ==> f in w.held) && k < |fs|
    ensures Run(w, Releases(fs) + Gets(|fs|)) == Some(w)
    ensures Returned(w, Releases(fs) + Gets(|fs|), |fs| + k) == Some(fs[|fs| - 1 - k])
  {
    hide Run, Reverse;
    var n, r, ops := |fs|, Reverse(fs), Releases(fs) + Gets(|fs|);
    AfterPuts(w, fs, n);
    AfterPuts(w, fs, k);
    ReverseSame(fs);
    assert r[n..] + w.free == w.free && r[..n] == r;
    forall f: nat ensures f in SetOf(r) <==> f in SetOf(fs) {
    }
    assert w.held - SetOf(fs) + SetOf(r) == w.held;
    assert ops[..n + k] == Releases(fs) + Gets(k);
    assert (r[k..] + w.free)[0] == r[k];
  }

  // ---------- Runs on physical memory ----------

  lemma RunStep(w0: World, w: World, ops: seq<Op>, i: nat)
    requires i < |ops| && Run(w0, ops).Some? && Run(w0, ops[..i]) == Some(w)
    ensures Step(w, ops[i]).Some? && Run(w0, ops[..i + 1]) == Step(w, ops[i])
  {
    hide Step;
    assert ops[..i + 1] == ops[..i] + [ops[i]];
    RunSnoc(w0, ops[..i], ops[i]);
    RunPrefix(w0, ops, i + 1);
  }

  /** The operations leave alone all memory outside the pool and in the frames that were handed out
      before and that they do not release. */
  ghost predicate Leaves(usable: set<nat>, held: set<nat>, ops: seq<Op>, m: Memory, m': Memory) {
    |m'| == |m| &&
    forall k: nat :: k < |m| && (k / 512 !in usable || k / 512 in held) && Release(k / 512) !in ops ==> m'[k] == m[k]
  }

  lemma SparesLeaves(usable: set<nat>, held: set<nat>, op: Op, m: Memory, m': Memory)
    requires Spares(usable, held, m, m')
    ensures Leaves(usable, held, [op], m, m')
  {
  }

  lemma LeavesFrame(usable: set<nat>, held: set<nat>, m: Memory, m1: Memory, m2: Memory, f: nat)
    requires OnlyFrame(m, m1, f) && OnlyFrame(m1, m2, f)
    ensures Leaves(usable, held, [Release(f)], m, m2)
  {
    forall k: nat | k < |m| && Release(k / 512) !in [Release(f)] ensures m2[k] == m[k] {
      assert Release(f) in [Release(f)];
      WordFrame(k, f);
    }
  }

  lemma LeavesNext(usable: set<nat>, held: set<nat>, held': set<nat>, ops: seq<Op>, op: Op, m: Memory, m1: Memory, m2: Memory)
    requires Leaves(usable, held, ops, m, m1) && Leaves(usable, held', [op], m1, m2)
    requires forall f :: f in held && Release(f) !in ops ==> f in held'
    ensures Leaves(usable, held, ops + [op], m, m2)
  {
  }

  /** A frame stays handed out until it is released. */
  lemma {:induction false} StaysHeld(usable: set<nat>, size: nat, w: World, ops: seq<Op>, f: nat)
    requires WorldOk(usable, size, w) && Run(w, ops).Some? && f in w.held && Release(f) !in ops
    ensures f in Run(w, ops).value.held
  {
    if ops != [] {
      hide Step, WorldOk;
      var init, op := ops[..|ops| - 1], ops[|ops| - 1];
      StaysHeld(usable, size, w, init, f);
      RunKeeps(usable, size, w, init);
      StepStaysHeld(usable, size, Run(w, init).value, op, f);
    }
  }

  lemma StepStaysHeld(usable: set<nat>, size: nat, w: World, op: Op, f: nat)
    requires WorldOk(usable, size, w) && Step(w, op).Some? && f in w.held && op != Release(f)
    ensures f in Step(w, op).value.held
  {
    hide Shaped, FrameOk;
    if op.Map? {
      hide Step;
      StepPermitted(w, op);
      MapStep(w, op);
    } else if op == NewRoot {
      assert w.free[0] in w.free;
    }
  }

  /** One operation on the real pool; a frame is cleared before it is put back. */
  method Perform(pool: FramePool, op: Op)
    requires pool.Valid() && Step(pool.world, op).Some? && (op.Map? ==> op.root < FRAME_LIMIT)
    modifies pool, pool.mem
    ensures pool.Valid() && pool.usable == old(pool.usable)
    ensures Step(old(pool.world), op) == Some(pool.world)
    ensures Leaves(pool.usable, old(pool.world.held), [op], old(pool.mem[..]), pool.mem[..])
  {
    hide Holds, MapPage, Spares, OnlyFrame, MapShows;
    ghost var m0, w0 := pool.mem[..], pool.world;
    HeadOfList(pool.mem[..], pool.firstPageFrame, pool.nFreePageFrames, pool.usable, pool.world);
    match op
    case Get =>
      var _ := pool.GetPhysBlock();
    case NewRoot =>
      var _ := NewPml4(pool);
    case Release(f) =>
      HeldOk(pool.mem[..], pool.firstPageFrame, pool.nFreePageFrames, pool.usable, pool.world, f);
      ZeroPagingStructure(pool, 4096 * f);
      ghost var m1 := pool.mem[..];
      ghost var first := pool.firstPageFrame;
      pool.PutPhysBlock(4096 * f);
      assert pool.mem[..] == m1[512 * f := first];
      OneWord(m1, pool.mem[..], f, 0, first);
      LeavesFrame(pool.usable, w0.held, m0, m1, pool.mem[..], f);
    case Map(root, paddr, vaddr, flags) =>
      MapPageSpecificPml4(pool, 4096 * root, paddr, vaddr, flags);
      SparesLeaves(pool.usable, w0.held, op, m0, pool.mem[..]);
  }

  lemma HeldOk(m: Memory, first: nat, count: nat, usable: set<nat>, w: World, f: nat)
    requires Holds(m, first, count, usable, w) && (f in w.held || f in w.owner)
    ensures FrameOk(f, |m|)
  {
  }

  /** Any sequence of operations, on any number of address spaces, interleaved in any way: the
      memory left behind, walked by the processor, gives for every address of every space that began
      empty what the operations say. */
  method Execute(pool: FramePool, ops: seq<Op>)
    requires pool.Valid() && Run(pool.world, ops).Some?
    modifies pool, pool.mem
    ensures pool.Valid() && pool.usable == old(pool.usable)
    ensures Run(old(pool.world), ops) == Some(pool.world)
    ensures Leaves(pool.usable, old(pool.world.held), ops, old(pool.mem[..]), pool.mem[..])
    ensures forall root: nat, vaddr: Word :: IsRoot(pool.world, root) && EmptySpace(old(pool.world), root) ==>
      Walk(pool.mem[..], root, vaddr) == Expected(ops, root, vaddr)
  {
    hide Run, Step, Holds, Walk, Expected, IsRoot, Leaves;
    ghost var w0, m0 := pool.world, pool.mem[..];
    ghost var ok := WorldOk(pool.usable, pool.mem.Length, w0);
    assert ok by {
      HoldsWorld(pool.mem[..], pool.firstPageFrame, pool.nFreePageFrames, pool.usable, w0);
    }
    NothingRun(w0, ops);
    LeavesNothing(pool.usable, w0.held, ops, m0);
    var i := 0;
    while i < |ops|
      invariant 0 <= i <= |ops| && pool.Valid() && pool.usable == old(pool.usable)
      invariant Run(w0, ops[..i]) == Some(pool.world)
      invariant Leaves(pool.usable, w0.held, ops[..i], m0, pool.mem[..])
    {
      ghost var w, m := pool.world, pool.mem[..];
      forall f | f in w0.held && Release(f) !in ops[..i] ensures f in w.held {
        StaysHeld(pool.usable, pool.mem.Length, w0, ops[..i], f);
      }
      RunStep(w0, pool.world, ops, i);
      MapRootOk(pool.mem[..], pool.firstPageFrame, pool.nFreePageFrames, pool.usable, pool.world, ops[i]);
      Perform(pool, ops[i]);
      LeavesNext(pool.usable, w0.held, w.held, ops[..i], ops[i], m0, m, pool.mem[..]);
      assert ops[..i + 1] == ops[..i] + [ops[i]];
      i := i + 1;
    }
    assert ops[..i] == ops;
    forall root: nat, vaddr: Word | IsRoot(pool.world, root) && EmptySpace(w0, root)
      ensures Walk(pool.mem[..], root, vaddr) == Expected(ops, root, vaddr)
    {
      MemoryTranslates(pool.mem[..], pool.firstPageFrame, pool.nFreePageFrames, pool.usable, w0, ops, root, vaddr);
    }
  }

  lemma LeavesNothing(usable: set<nat>, held: set<nat>, ops: seq<Op>, m: Memory)
    ensures Leaves(usable, held, ops[..0], m, m)
  {
  }

  lemma NothingRun(w: World, ops: seq<Op>)
    ensures Run(w, ops[..0]) == Some(w)
  {
  }

  lemma MapRootOk(m: Memory, first: nat, count: nat, usable: set<nat>, w: World, op: Op)
    requires Holds(m, first, count, usable, w) && Step(w, op).Some?
    ensures op.Map? ==> op.root < FRAME_LIMIT
  {
    if op.Map? {
      HeldOk(m, first, count, usable, w, op.root);
    }
  }
}

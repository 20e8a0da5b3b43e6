/** What every address translates to after a run, read off the operations: the last write of its
    page decides where it goes, the first operation that needed each table on its path decides
    what rights that table grants, and other address spaces do not matter. */
module History {
  import opened Structures
  import opened Wrappers
  import opened Worlds
  import opened PhysicalMemory
  import opened Runs
  import Bitwise

  /** The operation maps a page whose path goes through n, or that is n. */
  predicate Touches(op: Op, n: Node) {
    op.Map? && 0 <= n.level <= 3 && NodeAt(op.root, PageOf(op.vaddr), n.level) == n
  }

  /** The entry that the last map of a page wrote. */
  function LastWrite(ops: seq<Op>, leaf: Node): Option<Word> {
    if ops == [] then None
    else
      var op := ops[|ops| - 1];
      if Touches(op, leaf) && op.flags < 4096 then Some(MakeEntry(op.paddr, op.flags))
      else LastWrite(ops[..|ops| - 1], leaf)
  }

  /** The flags of the first map that needed a table. */
  function FirstFlags(ops: seq<Op>, n: Node): Option<nat> {
    if ops == [] then None
    else
      var r := FirstFlags(ops[..|ops| - 1], n);
      if r.Some? then r
      else if Touches(ops[|ops| - 1], n) then Some(ops[|ops| - 1].flags)
      else None
  }

  // ---------- One operation ----------

  lemma TouchesPath(op: Op, n: Node)
    ensures n in Path(op) <==> Touches(op, n) && n.level >= 1
    ensures op.Map? ==> (n == Leaf(op) <==> Touches(op, n) && n.level == 0)
  {
  }

  /** What a step does to the entry under one node. */
  ghost predicate EntryStep(w: World, w': World, op: Op, n: Node) {
    if !Touches(op, n) then (n in w'.ent <==> n in w.ent) && (n in w.ent ==> w'.ent[n] == w.ent[n])
    else if n !in w'.ent || op.flags >= 4096 then false
    else if n.level == 0 then w'.ent[n] == MakeEntry(op.paddr, op.flags)
    else if n in w.ent then w'.ent[n] == w.ent[n]
    else Bits(w'.ent[n]) == BitsOf(op.flags)
  }

  lemma StepEntry(w: World, op: Op, n: Node)
    requires Step(w, op).Some? && FreeNotHeld(w)
    ensures EntryStep(w, Step(w, op).value, op, n)
  {
    if op.Map? {
      MapStep(w, op);
      TouchesPath(op, n);
      MappedEntry(w, Step(w, op).value, op, n, Path(op), Leaf(op));
    }
  }

  lemma MappedEntry(w: World, w': World, op: Op, n: Node, P: set<Node>, leaf: Node)
    requires op.Map? && op.flags < 4096 && Mapped1(w, w', op) && P == Path(op) && leaf == Leaf(op)
    requires n in P <==> Touches(op, n) && n.level >= 1
    requires n == leaf <==> Touches(op, n) && n.level == 0
    ensures EntryStep(w, w', op, n)
  {
    var w1 :| Grown(w, w1, P, BitsOf(op.flags)) && w' == SetLeaf(w1, leaf, MakeEntry(op.paddr, op.flags));
    assert n in w1.ent <==> n in w.ent || n in P;
    assert Touches(op, n) ==> 0 <= n.level;
  }

  // ---------- Runs ----------

  /** Last write wins. */
  lemma {:induction false} RunLeaf(usable: set<nat>, size: nat, w: World, ops: seq<Op>, n: Node)
    requires WorldOk(usable, size, w) && Run(w, ops).Some? && n.level == 0
    ensures var w' := Run(w, ops).value;
      if LastWrite(ops, n).Some? then n in w'.ent && w'.ent[n] == LastWrite(ops, n).value
      else (n in w'.ent <==> n in w.ent) && (n in w.ent ==> w'.ent[n] == w.ent[n])
  {
    if ops != [] {
      var init, op := ops[..|ops| - 1], ops[|ops| - 1];
      RunLeaf(usable, size, w, init, n);
      RunKeeps(usable, size, w, init);
      StepEntry(Run(w, init).value, op, n);
    }
  }

  /** The first map that needs a table creates it, with its own flags, for good. */
  lemma {:induction false} RunTable(usable: set<nat>, size: nat, w: World, ops: seq<Op>, n: Node)
    requires WorldOk(usable, size, w) && Run(w, ops).Some? && 1 <= n.level <= 3
    ensures var w' := Run(w, ops).value;
      if n in w.ent then n in w'.ent && w'.ent[n] == w.ent[n]
      else (n in w'.ent <==> FirstFlags(ops, n).Some?) &&
           (n in w'.ent ==> Bits(w'.ent[n]) == BitsOf(FirstFlags(ops, n).value))
  {
    if ops != [] {
      var init, op := ops[..|ops| - 1], ops[|ops| - 1];
      RunTable(usable, size, w, init, n);
      RunKeeps(usable, size, w, init);
      StepEntry(Run(w, init).value, op, n);
    }
  }

  /** The rights of an entry are those of the flags it was made with. */
  lemma RightsOfBits(e: Word, flags: nat)
    requires Bits(e) == BitsOf(flags)
    ensures Writeable(e) == Writeable(flags) && UserMode(e) == UserMode(flags)
  {
    SetPresent(flags);
    FlagFields(e, e / 4096, e % 4096);
  }

  /** The translation of an address in an address space that was empty before the operations. */
  function Expected(ops: seq<Op>, root: nat, vaddr: Word): Translation {
    var v := PageOf(vaddr);
    var e, f3, f2, f1 := LastWrite(ops, NodeAt(root, v, 0)),
      FirstFlags(ops, NodeAt(root, v, 3)), FirstFlags(ops, NodeAt(root, v, 2)), FirstFlags(ops, NodeAt(root, v, 1));
    if e.None? || f3.None? || f2.None? || f1.None? then Fault
    else
      Mapped(PsePtr(e.value) + PageOffset(vaddr),
             Writeable(f3.value) && Writeable(f2.value) && Writeable(f1.value) && Writeable(e.value),
             UserMode(f3.value) && UserMode(f2.value) && UserMode(f1.value) && UserMode(e.value))
  }

  lemma TableRights(usable: set<nat>, size: nat, w: World, ops: seq<Op>, n: Node)
    requires WorldOk(usable, size, w) && Run(w, ops).Some? && 1 <= n.level <= 3 && n !in w.ent
    ensures var w' := Run(w, ops).value;
      if FirstFlags(ops, n).None? then n !in w'.ent
      else n in w'.ent && Writeable(w'.ent[n]) == Writeable(FirstFlags(ops, n).value)
                       && UserMode(w'.ent[n]) == UserMode(FirstFlags(ops, n).value)
  {
    RunTable(usable, size, w, ops, n);
    if FirstFlags(ops, n).Some? {
      RightsOfBits(Run(w, ops).value.ent[n], FirstFlags(ops, n).value);
    }
  }

  ghost predicate EmptySpace(w: World, root: nat) {
    forall n :: n in w.ent ==> n.root != root
  }

  /** The space of a root that was just taken is empty. */
  lemma NewSpaceEmpty(usable: set<nat>, size: nat, w: World)
    requires WorldOk(usable, size, w) && w.free != []
    ensures EmptySpace(Step(w, NewRoot).value, w.free[0])
  {
    TakeKeeps(usable, size, w);
    EntriesHaveRoots(w);
  }

  /** After any run of operations, an address of a space that began empty translates exactly as the
      last map of its page says, with the rights of that map and of the first map through each of
      its three tables; it faults where nothing was mapped. */
  lemma RunTranslates(usable: set<nat>, size: nat, w: World, ops: seq<Op>, root: nat, vaddr: Word)
    requires WorldOk(usable, size, w) && Run(w, ops).Some? && EmptySpace(w, root)
    ensures Translate(Run(w, ops).value, root, vaddr) == Expected(ops, root, vaddr)
  {
    hide Run, LastWrite, FirstFlags, PageOf, PsePtr, Writeable, UserMode;
    var w', v := Run(w, ops).value, PageOf(vaddr);
    RunKeeps(usable, size, w, ops);
    var n3, n2, n1, leaf := NodeAt(root, v, 3), NodeAt(root, v, 2), NodeAt(root, v, 1), NodeAt(root, v, 0);
    RunLeaf(usable, size, w, ops, leaf);
    if leaf in w'.ent {
      MappedPath(w', root, v);
      TableRights(usable, size, w, ops, n3);
      TableRights(usable, size, w, ops, n2);
      TableRights(usable, size, w, ops, n1);
    }
  }

  /** The same for the walk of physical memory that the processor performs. */
  lemma MemoryTranslates(m: Memory, first: nat, count: nat, usable: set<nat>, w: World, ops: seq<Op>,
                         root: nat, vaddr: Word)
    requires WorldOk(usable, |m|, w) && EmptySpace(w, root)
    requires Run(w, ops).Some? && IsRoot(Run(w, ops).value, root)
    requires Holds(m, first, count, usable, Run(w, ops).value)
    ensures Walk(m, root, vaddr) == Expected(ops, root, vaddr)
  {
    WalkRefines(m, first, count, usable, Run(w, ops).value, root, vaddr);
    RunTranslates(usable, |m|, w, ops, root, vaddr);
  }

  /** The words themselves: for a page that was mapped the walk reads three table words, each with the
      flags of the first map that needed its table, and the word that the last map wrote. */
  lemma MemoryWords(m: Memory, first: nat, count: nat, usable: set<nat>, w: World, ops: seq<Op>,
                    root: nat, vaddr: Word)
    requires WorldOk(usable, |m|, w) && EmptySpace(w, root)
    requires Run(w, ops).Some? && IsRoot(Run(w, ops).value, root)
    requires Holds(m, first, count, usable, Run(w, ops).value)
    requires LastWrite(ops, NodeAt(root, PageOf(vaddr), 0)).Some?
    ensures var (v, words) := (PageOf(vaddr), WalkWords(m, root, vaddr));
      && |words| == 4 && words[3] == LastWrite(ops, NodeAt(root, v, 0)).value
      && TableWord(ops, NodeAt(root, v, 3), words[0])
      && TableWord(ops, NodeAt(root, v, 2), words[1])
      && TableWord(ops, NodeAt(root, v, 1), words[2])
  {
    hide Run, LastWrite, FirstFlags, PageOf, WalkWords, TableWord;
    var w', v := Run(w, ops).value, PageOf(vaddr);
    NodesAbove(root, v);
    RunLeaf(usable, |m|, w, ops, NodeAt(root, v, 0));
    WordsRefine(m, first, count, usable, w', root, vaddr);
    WordOfTable(usable, |m|, w, ops, NodeAt(root, v, 3));
    WordOfTable(usable, |m|, w, ops, NodeAt(root, v, 2));
    WordOfTable(usable, |m|, w, ops, NodeAt(root, v, 1));
  }

  /** The word of a table has the present bit and the flags of the first map that needed the table. */
  predicate TableWord(ops: seq<Op>, n: Node, e: Word) {
    FirstFlags(ops, n).Some? && e % 4096 == FirstFlags(ops, n).value / 2 * 2 + 1
  }

  lemma NodesAbove(root: nat, v: nat)
    ensures forall l: nat :: l <= 3 ==> NodeAt(root, v, l).level == l && NodeAt(root, v, l).root == root
  {
  }

  lemma WordOfTable(usable: set<nat>, size: nat, w: World, ops: seq<Op>, n: Node)
    requires WorldOk(usable, size, w) && Run(w, ops).Some? && EmptySpace(w, n.root) && 1 <= n.level <= 3
    requires n in Run(w, ops).value.ent
    ensures TableWord(ops, n, Run(w, ops).value.ent[n])
  {
    hide Run, FirstFlags;
    RunTable(usable, size, w, ops, n);
  }

  // ---------- Isolation ----------

  /** The maps of one address space among the operations. */
  function OnRoot(ops: seq<Op>, root: nat): seq<Op> {
    if ops == [] then []
    else
      var op := ops[|ops| - 1];
      OnRoot(ops[..|ops| - 1], root) + (if op.Map? && op.root == root then [op] else [])
  }

  lemma HistorySnoc(ops: seq<Op>, op: Op, n: Node)
    ensures LastWrite(ops + [op], n) ==
      if Touches(op, n) && op.flags < 4096 then Some(MakeEntry(op.paddr, op.flags)) else LastWrite(ops, n)
    ensures FirstFlags(ops + [op], n) ==
      if FirstFlags(ops, n).Some? then FirstFlags(ops, n) else if Touches(op, n) then Some(op.flags) else None
  {
    hide Touches, MakeEntry;
    assert (ops + [op])[..|ops|] == ops;
  }

  lemma {:induction false} HistoryOnRoot(ops: seq<Op>, n: Node)
    ensures LastWrite(ops, n) == LastWrite(OnRoot(ops, n.root), n)
    ensures FirstFlags(ops, n) == FirstFlags(OnRoot(ops, n.root), n)
  {
    if ops != [] {
      hide LastWrite, FirstFlags, MakeEntry, PageOf;
      var init, op := ops[..|ops| - 1], ops[|ops| - 1];
      HistoryOnRoot(init, n);
      assert ops == init + [op];
      HistorySnoc(init, op, n);
      if op.Map? && op.root == n.root {
        HistorySnoc(OnRoot(init, n.root), op, n);
      } else {
        assert OnRoot(ops, n.root) == OnRoot(init, n.root);
      }
    }
  }

  /** Address spaces are isolated over all interleavings: in any two runs from any two worlds, two
      spaces that began empty and saw the same maps translate every address alike. */
  lemma SpacesIsolated(usable1: set<nat>, size1: nat, w1: World, ops1: seq<Op>,
                       usable2: set<nat>, size2: nat, w2: World, ops2: seq<Op>, root: nat, vaddr: Word)
    requires WorldOk(usable1, size1, w1) && Run(w1, ops1).Some? && EmptySpace(w1, root)
    requires WorldOk(usable2, size2, w2) && Run(w2, ops2).Some? && EmptySpace(w2, root)
    requires OnRoot(ops1, root) == OnRoot(ops2, root)
    ensures Translate(Run(w1, ops1).value, root, vaddr) == Translate(Run(w2, ops2).value, root, vaddr)
  {
    RunTranslates(usable1, size1, w1, ops1, root, vaddr);
    RunTranslates(usable2, size2, w2, ops2, root, vaddr);
    ExpectedOnRoot(ops1, root, vaddr);
    ExpectedOnRoot(ops2, root, vaddr);
  }

  lemma ExpectedOnRoot(ops: seq<Op>, root: nat, vaddr: Word)
    ensures Expected(ops, root, vaddr) == Expected(OnRoot(ops, root), root, vaddr)
  {
    var v := PageOf(vaddr);
    HistoryOnRoot(ops, NodeAt(root, v, 0));
    HistoryOnRoot(ops, NodeAt(root, v, 1));
    HistoryOnRoot(ops, NodeAt(root, v, 2));
    HistoryOnRoot(ops, NodeAt(root, v, 3));
  }

  lemma FreeApart(usable: set<nat>, size: nat, w: World)
    requires WorldOk(usable, size, w)
    ensures FreeNotHeld(w) && Shaped(w)
  {
  }

  /** One step changes the translation and rights of no address but those of the page it maps, in
      the space it maps it in, whatever the world was before. */
  lemma OthersUnchanged(usable: set<nat>, size: nat, w: World, op: Op, root: nat, vaddr: Word)
    requires WorldOk(usable, size, w) && Step(w, op).Some?
    requires op.Map? ==> op.root != root || PageOf(op.vaddr) != PageOf(vaddr)
    ensures Translate(Step(w, op).value, root, vaddr) == Translate(w, root, vaddr)
  {
    hide Step, WorldOk;
    var w', v := Step(w, op).value, PageOf(vaddr);
    FreeApart(usable, size, w);
    StepEntry(w, op, NodeAt(root, v, 0));
    if NodeAt(root, v, 0) in w.ent {
      MappedPath(w, root, v);
      StepEntry(w, op, NodeAt(root, v, 1));
      StepEntry(w, op, NodeAt(root, v, 2));
      StepEntry(w, op, NodeAt(root, v, 3));
    }
  }

  /** The same for the walk of the memory before and after the step. */
  lemma WalkUnchanged(m: Memory, first: nat, count: nat, m': Memory, first': nat, count': nat,
                      usable: set<nat>, w: World, op: Op, root: nat, vaddr: Word)
    requires Holds(m, first, count, usable, w) && IsRoot(w, root) && Step(w, op).Some?
    requires Holds(m', first', count', usable, Step(w, op).value)
    requires op.Map? ==> op.root != root || PageOf(op.vaddr) != PageOf(vaddr)
    ensures Walk(m', root, vaddr) == Walk(m, root, vaddr)
  {
    hide Walk, Step, Translate;
    StepKeeps(usable, |m|, w, op);
    WalkRefines(m, first, count, usable, w, root, vaddr);
    WalkRefines(m', first', count', usable, Step(w, op).value, root, vaddr);
    OthersUnchanged(usable, |m|, w, op, root, vaddr);
  }

  // ---------- One map, as the processor sees it ----------

  /** After a map the page leads where it says, with no more rights than it gives, its leaf word is
      the one the code writes, and no other address of any space has changed. */
  lemma MapSeen(m: Memory, first: nat, count: nat, m': Memory, first': nat, count': nat,
                usable: set<nat>, w: World, root: nat, paddr: Word, vaddr: Word, flags: nat)
    requires Holds(m, first, count, usable, w) && Step(w, Map(root, paddr, vaddr, flags)).Some?
    requires Holds(m', first', count', usable, Step(w, Map(root, paddr, vaddr, flags)).value)
    ensures MapShows(m, m', w, root, paddr, vaddr, flags)
  {
    hide Walk, WalkWords, Step, WorldOk, PsePtr, Writeable, UserMode, PageSize;
    var op := Map(root, paddr, vaddr, flags);
    var w', v := Step(w, op).value, PageOf(vaddr);
    StepPermitted(w, op);
    StepKeeps(usable, |m|, w, op);
    FreeApart(usable, |m|, w);
    StepEntry(w, op, NodeAt(root, v, 0));
    RootStays(w, w', root);
    WalkRefines(m', first', count', usable, w', root, vaddr);
    WordsRefine(m', first', count', usable, w', root, vaddr);
    EntryFields(paddr, flags);
    Bitwise.EntryIsOr(paddr, flags);
    Bitwise.PsePtrMasks(paddr);
    FlagBits(flags);
    forall r: nat, va: Word | IsRoot(w, r) && (r != root || va / 4096 % 0x10_0000_0000 != vaddr / 4096 % 0x10_0000_0000)
      ensures Walk(m', r, va) == Walk(m, r, va) {
      WalkUnchanged(m, first, count, m', first', count', usable, w, op, r, va);
    }
  }

  ghost predicate MapShows(m: Memory, m': Memory, w: World, root: nat, paddr: Word, vaddr: Word, flags: nat) {
    && (var (t, words) := (Walk(m', root, vaddr), WalkWords(m', root, vaddr));
        && t.Mapped? && t.phys == Bitwise.And(paddr, 0x000f_ffff_ffff_f000) + vaddr % 4096
        && (t.writable ==> flags / 2 % 2 == 1) && (t.user ==> flags / 4 % 2 == 1)
        && |words| == 4 && words[3] == Bitwise.Or(Bitwise.Or(Bitwise.And(paddr, 0x000f_ffff_ffff_f000), 1), flags))
    && forall r: nat, va: Word ::
         IsRoot(w, r) && (r != root || va / 4096 % 0x10_0000_0000 != vaddr / 4096 % 0x10_0000_0000) ==> Walk(m', r, va) == Walk(m, r, va)
  }

  lemma FlagBits(flags: nat)
    ensures Writeable(flags) == (flags / 2 % 2 == 1) && UserMode(flags) == (flags / 4 % 2 == 1)
  {
  }

  lemma RootStays(w: World, w': World, root: nat)
    requires OwnersStay(w, w') && IsRoot(w, root)
    ensures IsRoot(w', root)
  {
  }
}

/** What the kernel's physical memory means: which frames are free, which hold paging tables of
    which address space, and what every present entry says.  Operations on this view are the
    specification of the imperative code in mem.dfy, paging.dfy, kernelmap.dfy and proc.dfy. */
module Worlds {
  import opened Structures
  import opened Wrappers

  /** A place in the radix tree of the address space whose PML4 is in frame `root`: level 4 is the
      PML4 itself, 3 a PDPT, 2 a page directory, 1 a page table and 0 a mapped page.  `prefix` is
      the part of the page number that leads here. */
  datatype Node = Node(root: nat, level: int, prefix: nat)

  function Child(n: Node, i: nat): Node {
    Node(n.root, n.level - 1, n.prefix * 512 + i)
  }

  function Parent(n: Node): Node {
    Node(n.root, n.level + 1, n.prefix / 512)
  }

  /** The node on the path of page `v` at a level. */
  function NodeAt(root: nat, v: nat, level: nat): Node {
    Node(root, level, Up(v, level))
  }

  lemma ParentAt(root: nat, v: nat, level: nat)
    requires level <= 3
    ensures Parent(NodeAt(root, v, level)) == NodeAt(root, v, level + 1)
  {
    UpStep(v, level);
  }

  lemma ChildParent(n: Node, c: Node, i: nat)
    requires i < 512
    ensures c == Child(n, i) <==> Parent(c) == n && c.prefix % 512 == i
  {
    QuotientIs(n.prefix * 512 + i, 512, n.prefix, i);
  }

  datatype World = World(
    free: seq<nat>,          // the free list, head first, as frame numbers
    held: set<nat>,          // frames handed out for other uses
    owner: map<nat, Node>,   // table frames and the table each one is
    ent: map<Node, Word>)    // every present entry, under the node it leads to

  /** The frame that holds the table of a node. */
  function TableOf(w: World, n: Node): nat {
    if n.level == 4 then n.root else if n in w.ent then PsePtr(w.ent[n]) / 4096 else 0
  }

  predicate IsTable(w: World, n: Node) {
    TableOf(w, n) in w.owner && w.owner[TableOf(w, n)] == n
  }

  predicate IsRoot(w: World, r: nat) {
    r in w.owner && w.owner[r] == Node(r, 4, 0)
  }

  // ---------- The invariant of a world ----------

  /** A frame that the list, the tables and PSE_PTR can all address, inside `size` words. */
  predicate FrameOk(f: nat, size: nat) {
    0 < f < FRAME_LIMIT && 512 * f + 512 <= size
  }

  predicate NoDuplicates(s: seq<nat>) {
    forall i, j :: 0 <= i < j < |s| ==> s[i] != s[j]
  }

  /** The usable frames are exactly the free, held and table frames, each one only one of these. */
  ghost predicate Partition(usable: set<nat>, w: World) {
    && (forall f :: f in usable <==> f in w.free || f in w.held || f in w.owner)
    && (forall f :: f in w.free ==> f !in w.held && f !in w.owner)
    && (forall f :: f in w.held ==> f !in w.owner)
    && NoDuplicates(w.free)
  }

  predicate OwnerOk(w: World, f: nat)
    requires f in w.owner
  {
    var n := w.owner[f];
    if n.level == 4 then n == Node(f, 4, 0)
    else 1 <= n.level <= 3 && n in w.ent && PsePtr(w.ent[n]) == 4096 * f
  }

  predicate EntryOk(w: World, n: Node)
    requires n in w.ent
  {
    && 0 <= n.level <= 3
    && Present(w.ent[n])
    && IsTable(w, Parent(n))
    && (n.level >= 1 ==> !PageSize(w.ent[n]) && IsTable(w, n))
  }

  /** Every table frame is one table at one place of one tree, and every present entry sits in such
      a table and, above the leaves, leads to one. */
  ghost predicate Shaped(w: World) {
    && (forall f :: f in w.owner ==> OwnerOk(w, f))
    && (forall n :: n in w.ent ==> EntryOk(w, n))
  }

  ghost predicate WorldOk(usable: set<nat>, size: nat, w: World) {
    && (forall f :: f in usable ==> FrameOk(f, size))
    && Partition(usable, w)
    && Shaped(w)
  }

  // ---------- Operations ----------

  /** Take a frame from the free list; None is the spinning ASSERT of an empty pool. */
  function Take(w: World): Option<World> {
    if w.free == [] then None else Some(w.(free := w.free[1..], held := w.held + {w.free[0]}))
  }

  /** Turn a held frame into the table of `n`, pointed to by entry `e`. */
  function Link(w: World, g: nat, n: Node, e: Word): World {
    w.(held := w.held - {g}, owner := w.owner[g := n], ent := w.ent[n := e])
  }

  function AdoptRoot(w: World, g: nat): World {
    w.(held := w.held - {g}, owner := w.owner[g := Node(g, 4, 0)])
  }

  function SetLeaf(w: World, n: Node, e: Word): World {
    w.(ent := w.ent[n := e])
  }

  function Give(w: World, f: nat): World {
    w.(free := [f] + w.free, held := w.held - {f})
  }

  function EnsureTable(w: World, n: Node, flags: nat): Option<World>
    requires flags < 4096
  {
    if n in w.ent then Some(w)
    else
      var w1 :- Take(w);
      Some(Link(w1, w.free[0], n, MakeEntry(4096 * w.free[0], flags)))
  }

  /** Create what is missing of the three tables on a path, top down, then write the leaf. */
  function MapPath(w: World, n3: Node, n2: Node, n1: Node, leaf: Node, paddr: nat, flags: nat): Option<World>
    requires flags < 4096
  {
    var w3 :- EnsureTable(w, n3, flags);
    var w2 :- EnsureTable(w3, n2, flags);
    var w1 :- EnsureTable(w2, n1, flags);
    Some(SetLeaf(w1, leaf, MakeEntry(paddr, flags)))
  }

  function MapPage(w: World, root: nat, v: nat, paddr: nat, flags: nat): Option<World>
    requires flags < 4096
  {
    MapPath(w, NodeAt(root, v, 3), NodeAt(root, v, 2), NodeAt(root, v, 1), NodeAt(root, v, 0), paddr, flags)
  }

  datatype Op =
    | Get
    | NewRoot
    | Release(frame: nat)
    | Map(root: nat, paddr: Word, vaddr: Word, flags: nat)

  /** One kernel step; None when it spins on ASSERT or breaks a caller's obligation. */
  function Step(w: World, op: Op): Option<World> {
    match op
    case Get => Take(w)
    case NewRoot =>
      var w1 :- Take(w);
      Some(AdoptRoot(w1, w.free[0]))
    case Release(f) => if f in w.held then Some(Give(w, f)) else None
    case Map(root, paddr, vaddr, flags) =>
      if IsRoot(w, root) && FlagsOk(flags) then MapPage(w, root, PageOf(vaddr), paddr, flags) else None
  }

  function Run(w: World, ops: seq<Op>): Option<World> {
    if ops == [] then Some(w)
    else
      var w1 :- Run(w, ops[..|ops| - 1]);
      Step(w1, ops[|ops| - 1])
  }

  lemma RunSnoc(w: World, ops: seq<Op>, op: Op)
    ensures Run(w, ops + [op]) == (if Run(w, ops).Some? then Step(Run(w, ops).value, op) else None)
  {
    assert (ops + [op])[..|ops|] == ops;
  }

  lemma {:induction false} RunConcat(w: World, a: seq<Op>, b: seq<Op>)
    ensures Run(w, a + b) == (if Run(w, a).Some? then Run(Run(w, a).value, b) else None)
  {
    if b == [] {
      assert a + b == a;
    } else {
      var b', op := b[..|b| - 1], b[|b| - 1];
      RunConcat(w, a, b');
      assert a + b == (a + b') + [op] && b == b' + [op];
      RunSnoc(w, a + b', op);
    }
  }

  lemma RunOne(w: World, w1: World, op: Op, ops: seq<Op>)
    requires Step(w, op) == Some(w1)
    ensures Run(w, [op] + ops) == Run(w1, ops)
  {
    hide Step;
    RunConcat(w, [op], ops);
    RunSnoc(w, [], op);
    assert [] + [op] == [op];
  }

  lemma RunHead(w: World, op: Op, ops: seq<Op>)
    requires Run(w, [op] + ops).Some?
    ensures Step(w, op).Some?
  {
    hide Step;
    RunConcat(w, [op], ops);
    RunSnoc(w, [], op);
    assert [] + [op] == [op];
  }

  /** A run that succeeds succeeds on every prefix. */
  lemma RunPrefix(w: World, ops: seq<Op>, k: nat)
    requires k <= |ops| && Run(w, ops).Some?
    ensures Run(w, ops[..k]).Some?
  {
    assert ops == ops[..k] + ops[k..];
    RunConcat(w, ops[..k], ops[k..]);
  }

  // ---------- Every operation keeps the invariant ----------

  lemma TakeKeeps(usable: set<nat>, size: nat, w: World)
    requires WorldOk(usable, size, w) && w.free != []
    ensures WorldOk(usable, size, Take(w).value)
    ensures FrameOk(w.free[0], size) && w.free[0] !in w.held && w.free[0] !in w.owner
  {
    var w' := Take(w).value;
    var g := w.free[0];
    assert g in w.free;
    forall f ensures f in w.free <==> f in w'.free || f == g {
      if f in w.free && f != g {
        var i :| 0 <= i < |w.free| && w.free[i] == f;
        assert w'.free[i - 1] == f;
      }
    }
    forall f | f in w'.free ensures f != g {
      var i :| 0 <= i < |w'.free| && w'.free[i] == f;
      assert w.free[i + 1] == f;
    }
    forall f | f in w'.owner ensures OwnerOk(w', f) {
      assert OwnerOk(w, f);
    }
    forall n | n in w'.ent ensures EntryOk(w', n) {
      assert EntryOk(w, n);
    }
  }

  /** An entry that points to the table in frame g. */
  predicate PointsTo(e: Word, g: nat) {
    Present(e) && !PageSize(e) && PsePtr(e) == 4096 * g
  }

  lemma EntryPointsTo(g: nat, flags: nat)
    requires g < FRAME_LIMIT && FlagsOk(flags)
    ensures PointsTo(MakeEntry(4096 * g, flags), g)
  {
    EntryFields(4096 * g, flags);
    PointerField(4096 * g, g, 0);
  }

  lemma LinkKeeps(usable: set<nat>, size: nat, w: World, g: nat, n: Node, e: Word)
    requires WorldOk(usable, size, w) && g in w.held && PointsTo(e, g)
    requires n !in w.ent && 1 <= n.level <= 3 && IsTable(w, Parent(n))
    ensures WorldOk(usable, size, Link(w, g, n, e))
  {
    var w' := Link(w, g, n, e);
    assert Partition(usable, w');
    forall f | f in w'.owner ensures OwnerOk(w', f) {
      if f != g {
        assert OwnerOk(w, f);
      }
    }
    assert TableOf(w', n) == g;
    forall c | c in w'.ent ensures EntryOk(w', c) {
      if c != n {
        assert EntryOk(w, c);
        if c.level >= 1 {
          TableStays(w, g, n, e, c);
        }
      }
      TableStays(w, g, n, e, Parent(c));
    }
  }

  lemma TableStays(w: World, g: nat, n: Node, e: Word, c: Node)
    requires g !in w.owner && n !in w.ent && IsTable(w, c)
    requires n.level != 4
    ensures n == c || IsTable(Link(w, g, n, e), c)
  {
  }

  lemma SetLeafKeeps(usable: set<nat>, size: nat, w: World, n: Node, e: Word)
    requires WorldOk(usable, size, w) && n.level == 0 && IsTable(w, Parent(n)) && Present(e)
    ensures WorldOk(usable, size, SetLeaf(w, n, e))
  {
    var w' := SetLeaf(w, n, e);
    forall f | f in w'.owner ensures OwnerOk(w', f) {
      assert OwnerOk(w, f);
    }
    forall c | c in w'.ent ensures EntryOk(w', c) {
      if c != n {
        assert EntryOk(w, c);
      }
      assert IsTable(w, Parent(c));
      NotLeaf(w, Parent(c), n);
      if c.level >= 1 {
        assert TableOf(w', c) == TableOf(w, c);
      }
    }
  }

  lemma NotLeaf(w: World, p: Node, n: Node)
    requires n.level == 0 && IsTable(w, p) && (forall f :: f in w.owner ==> OwnerOk(w, f))
    ensures p != n
  {
  }

  lemma AdoptKeeps(usable: set<nat>, size: nat, w: World, g: nat)
    requires WorldOk(usable, size, w) && g in w.held
    ensures WorldOk(usable, size, AdoptRoot(w, g))
  {
    var w' := AdoptRoot(w, g);
    forall f | f in w'.owner ensures OwnerOk(w', f) {
      if f != g {
        assert OwnerOk(w, f);
      }
    }
    forall c | c in w'.ent ensures EntryOk(w', c) {
      assert EntryOk(w, c);
    }
  }

  lemma GiveKeeps(usable: set<nat>, size: nat, w: World, f: nat)
    requires WorldOk(usable, size, w) && f in w.held
    ensures WorldOk(usable, size, Give(w, f))
  {
    var w' := Give(w, f);
    assert forall g :: g in w'.free <==> g == f || g in w.free;
    forall g | g in w'.owner ensures OwnerOk(w', g) {
      assert OwnerOk(w, g);
    }
    forall c | c in w'.ent ensures EntryOk(w', c) {
      assert EntryOk(w, c);
    }
  }

  /** No table frame ever becomes anything else. */
  ghost predicate OwnersStay(w: World, w': World) {
    forall f :: f in w.owner ==> f in w'.owner && w'.owner[f] == w.owner[f]
  }

  /** Adding a missing table keeps the invariant, keeps what was there, and makes `n` a table. */
  lemma EnsureKeeps(usable: set<nat>, size: nat, w: World, n: Node, flags: nat)
    requires WorldOk(usable, size, w) && FlagsOk(flags)
    requires 1 <= n.level <= 3 && IsTable(w, Parent(n))
    ensures var r := EnsureTable(w, n, flags);
      r.Some? ==> WorldOk(usable, size, r.value) && IsTable(r.value, n) && n in r.value.ent && OwnersStay(w, r.value)
  {
    if n in w.ent {
      assert EntryOk(w, n);
    } else if w.free != [] {
      TakeKeeps(usable, size, w);
      var w1, g := Take(w).value, w.free[0];
      assert TableOf(w1, Parent(n)) == TableOf(w, Parent(n));
      EntryPointsTo(g, flags);
      var e := MakeEntry(4096 * g, flags);
      LinkKeeps(usable, size, w1, g, n, e);
      assert EntryOk(Link(w1, g, n, e), n);
    }
  }

  /** The nodes on the path of a page are each other's parents, up to the root. */
  ghost predicate IsPath(root: nat, n3: Node, n2: Node, n1: Node, leaf: Node) {
    && Parent(n3) == Node(root, 4, 0) && Parent(n2) == n3 && Parent(n1) == n2 && Parent(leaf) == n1
    && n3.level == 3
  }

  lemma PathOfPage(root: nat, v: nat)
    requires v < PAGE_COUNT
    ensures IsPath(root, NodeAt(root, v, 3), NodeAt(root, v, 2), NodeAt(root, v, 1), NodeAt(root, v, 0))
  {
    ParentAt(root, v, 3);
    ParentAt(root, v, 2);
    ParentAt(root, v, 1);
    ParentAt(root, v, 0);
  }

  lemma MapPathKeeps(usable: set<nat>, size: nat, w: World, root: nat,
                     n3: Node, n2: Node, n1: Node, leaf: Node, paddr: nat, flags: nat)
    requires WorldOk(usable, size, w) && FlagsOk(flags) && IsRoot(w, root) && IsPath(root, n3, n2, n1, leaf)
    requires MapPath(w, n3, n2, n1, leaf, paddr, flags).Some?
    ensures var w' := MapPath(w, n3, n2, n1, leaf, paddr, flags).value;
      WorldOk(usable, size, w') && OwnersStay(w, w')
  {
    EnsureKeeps(usable, size, w, n3, flags);
    var w3 := EnsureTable(w, n3, flags).value;
    EnsureKeeps(usable, size, w3, n2, flags);
    var w2 := EnsureTable(w3, n2, flags).value;
    EnsureKeeps(usable, size, w2, n1, flags);
    var w1 := EnsureTable(w2, n1, flags).value;
    EntryFields(paddr, flags);
    SetLeafKeeps(usable, size, w1, leaf, MakeEntry(paddr, flags));
  }

  lemma StepKeeps(usable: set<nat>, size: nat, w: World, op: Op)
    requires WorldOk(usable, size, w) && Step(w, op).Some?
    ensures WorldOk(usable, size, Step(w, op).value) && OwnersStay(w, Step(w, op).value)
  {
    match op
    case Get => TakeKeeps(usable, size, w);
    case NewRoot =>
      TakeKeeps(usable, size, w);
      AdoptKeeps(usable, size, Take(w).value, w.free[0]);
    case Release(f) => GiveKeeps(usable, size, w, f);
    case Map(root, paddr, vaddr, flags) =>
      var v := PageOf(vaddr);
      PathOfPage(root, v);
      MapPathKeeps(usable, size, w, root,
                   NodeAt(root, v, 3), NodeAt(root, v, 2), NodeAt(root, v, 1), NodeAt(root, v, 0), paddr, flags);
  }

  /** Frame conservation and tree shape hold in every state of every run. */
  lemma {:induction false} RunKeeps(usable: set<nat>, size: nat, w: World, ops: seq<Op>)
    requires WorldOk(usable, size, w) && Run(w, ops).Some?
    ensures WorldOk(usable, size, Run(w, ops).value) && OwnersStay(w, Run(w, ops).value)
  {
    if ops != [] {
      var k := |ops| - 1;
      RunKeeps(usable, size, w, ops[..k]);
      StepKeeps(usable, size, Run(w, ops[..k]).value, ops[k]);
    }
  }
}

/** Physical memory as 64-bit words: the address translation that the processor performs on it
    (Intel SDM volume 3A, sections 4.5 and 4.6), what it means for memory to hold a world, and
    what each kind of store does to that. */
module PhysicalMemory {
  import opened Structures
  import opened Worlds

  type Memory = seq<Word>

  // ---------- The processor's 4-level walk ----------

  datatype Translation = Fault | Mapped(phys: nat, writable: bool, user: bool)

  function IndexAt(level: int, vaddr: Word): nat {
    match level
    case 4 => Pml4Index(vaddr)
    case 3 => PdptIndex(vaddr)
    case 2 => PdtIndex(vaddr)
    case _ => PtIndex(vaddr)
  }

  /** Bytes covered by an entry that maps a page at a level: 4 KiB, 2 MiB or 1 GiB. */
  function PageBytes(level: int): nat {
    match level
    case 1 => 0x1000
    case 2 => 0x20_0000
    case _ => 0x4000_0000
  }

  /** Bit 7 makes a level 2 or 3 entry map a large page and is reserved at level 4.  The rights are
      the conjunction of those of every entry on the way. */
  function WalkFrom(m: Memory, table: nat, level: nat, vaddr: Word, writable: bool, user: bool): Translation
    requires 1 <= level <= 4
    decreases level
  {
    var k := table / 8 + IndexAt(level, vaddr);
    if k >= |m| || !Present(m[k]) || (level == 4 && PageSize(m[k])) then Fault
    else
      var e := m[k];
      var wr, us := writable && Writeable(e), user && UserMode(e);
      if level == 1 || PageSize(e) then
        var size := PageBytes(level);
        Mapped(e % 0x10_0000_0000_0000 / size * size + vaddr % size, wr, us)
      else
        WalkFrom(m, PsePtr(e), level - 1, vaddr, wr, us)
  }

  /** Translation of the low 48 bits of an address by the tree whose PML4 is in frame `root`. */
  function Walk(m: Memory, root: nat, vaddr: Word): Translation {
    WalkFrom(m, 4096 * root, 4, vaddr, true, true)
  }

  /** The words that the walk reads on its way to a 4 KiB page, from the PML4 down. */
  function WordsFrom(m: Memory, table: nat, level: nat, vaddr: Word): seq<Word>
    requires 1 <= level <= 4
    decreases level
  {
    var k := table / 8 + IndexAt(level, vaddr);
    if k >= |m| then []
    else if level == 1 || !Present(m[k]) then [m[k]]
    else [m[k]] + WordsFrom(m, PsePtr(m[k]), level - 1, vaddr)
  }

  function WalkWords(m: Memory, root: nat, vaddr: Word): seq<Word> {
    WordsFrom(m, 4096 * root, 4, vaddr)
  }

  /** Bits 12 to 51 of a word. */
  function FrameIn(e: Word): nat {
    e % 0x10_0000_0000_0000 / 4096
  }

  lemma TableIndex(e: Word, i: nat)
    ensures PsePtr(e) / 8 + i == 512 * FrameIn(e) + i
  {
  }

  /** The walk written out: four table words, at the places that bits 39, 30, 21 and 12 and up of the
      address select, each in the frame that the one before points to. */
  lemma WalkFourLevels(m: Memory, root: nat, vaddr: Word, a: nat, b: nat, c: nat, d: nat)
    requires a < |m| && b < |m| && c < |m| && d < |m|
    requires a == 512 * root + vaddr / 0x80_0000_0000 % 512
    requires b == 512 * FrameIn(m[a]) + vaddr / 0x4000_0000 % 512
    requires c == 512 * FrameIn(m[b]) + vaddr / 0x20_0000 % 512
    requires d == 512 * FrameIn(m[c]) + vaddr / 0x1000 % 512
    requires m[a] % 2 == m[b] % 2 == m[c] % 2 == 1
    requires m[a] / 128 % 2 == m[b] / 128 % 2 == m[c] / 128 % 2 == 0
    ensures WalkWords(m, root, vaddr) == [m[a], m[b], m[c], m[d]]
    ensures Walk(m, root, vaddr) ==
      if m[d] % 2 == 0 then Fault
      else Mapped(4096 * FrameIn(m[d]) + vaddr % 4096,
                  m[a] / 2 % 2 == 1 && m[b] / 2 % 2 == 1 && m[c] / 2 % 2 == 1 && m[d] / 2 % 2 == 1,
                  m[a] / 4 % 2 == 1 && m[b] / 4 % 2 == 1 && m[c] / 4 % 2 == 1 && m[d] / 4 % 2 == 1)
  {
    hide WalkFrom, WordsFrom, PsePtr, IndexAt, PageOffset, FrameIn;
    IndexValues(vaddr);
    TableIndex(m[a], IndexAt(3, vaddr));
    TableIndex(m[b], IndexAt(2, vaddr));
    TableIndex(m[c], IndexAt(1, vaddr));
    var wa, wb, wc := m[a] / 2 % 2 == 1, m[b] / 2 % 2 == 1, m[c] / 2 % 2 == 1;
    var ua, ub, uc := m[a] / 4 % 2 == 1, m[b] / 4 % 2 == 1, m[c] / 4 % 2 == 1;
    WalkDown(m, 4096 * root, 4, vaddr, a, true, true);
    WalkDown(m, PsePtr(m[a]), 3, vaddr, b, wa, ua);
    WalkDown(m, PsePtr(m[b]), 2, vaddr, c, wa && wb, ua && ub);
    WalkLast(m, PsePtr(m[c]), vaddr, d, wa && wb && wc, ua && ub && uc);
    assert [m[b]] + ([m[c]] + [m[d]]) == [m[b], m[c], m[d]];
  }

  lemma IndexValues(vaddr: Word)
    ensures IndexAt(4, vaddr) == vaddr / 0x80_0000_0000 % 512 && IndexAt(3, vaddr) == vaddr / 0x4000_0000 % 512
    ensures IndexAt(2, vaddr) == vaddr / 0x20_0000 % 512 && IndexAt(1, vaddr) == vaddr / 0x1000 % 512
  {
  }

  lemma WalkDown(m: Memory, table: nat, level: nat, vaddr: Word, k: nat, wr: bool, us: bool)
    requires 2 <= level <= 4 && k == table / 8 + IndexAt(level, vaddr) && k < |m|
    requires m[k] % 2 == 1 && m[k] / 128 % 2 == 0
    ensures WalkFrom(m, table, level, vaddr, wr, us)
         == WalkFrom(m, PsePtr(m[k]), level - 1, vaddr, wr && m[k] / 2 % 2 == 1, us && m[k] / 4 % 2 == 1)
    ensures WordsFrom(m, table, level, vaddr) == [m[k]] + WordsFrom(m, PsePtr(m[k]), level - 1, vaddr)
  {
    hide PsePtr, IndexAt, PageBytes;
  }

  lemma WalkLast(m: Memory, table: nat, vaddr: Word, k: nat, wr: bool, us: bool)
    requires k == table / 8 + IndexAt(1, vaddr) && k < |m|
    ensures WalkFrom(m, table, 1, vaddr, wr, us) ==
      if m[k] % 2 == 0 then Fault
      else Mapped(4096 * FrameIn(m[k]) + vaddr % 4096, wr && m[k] / 2 % 2 == 1, us && m[k] / 4 % 2 == 1)
    ensures WordsFrom(m, table, 1, vaddr) == [m[k]]
  {
  }

  // ---------- Memory that holds a world ----------

  /** The entry in slot i of table frame f says what the world says. */
  predicate SlotOk(m: Memory, w: World, f: nat, i: nat) {
    && f in w.owner && 512 * f + i < |m|
    && var c := Child(w.owner[f], i);
       var e := m[512 * f + i];
       if c in w.ent then e == w.ent[c] else !Present(e)
  }

  ghost predicate Encodes(m: Memory, w: World) {
    forall f: nat, i: nat :: f in w.owner && i < 512 ==> SlotOk(m, w, f, i)
  }

  /** The `next_frame` link that leads to position k of the list; NULL past its end. */
  function LinkTo(free: seq<nat>, k: nat): nat {
    if k < |free| then 4096 * free[k] else 0
  }

  predicate ChainOk(m: Memory, free: seq<nat>, k: nat)
    requires k < |free|
  {
    512 * free[k] < |m| && m[512 * free[k]] == LinkTo(free, k + 1)
  }

  /** The list in memory, from `first`, is exactly `free` and ends in NULL. */
  ghost predicate Chain(m: Memory, first: nat, free: seq<nat>) {
    && first == LinkTo(free, 0)
    && forall k: nat :: k < |free| ==> ChainOk(m, free, k)
  }

  predicate Quiet(m: Memory, f: nat, i: nat) {
    512 * f + i < |m| && !Present(m[512 * f + i])
  }

  /** No word of a frame but its first has the present bit. */
  ghost predicate Clean(m: Memory, f: nat) {
    forall i: nat :: 1 <= i < 512 ==> Quiet(m, f, i)
  }

  /** No word of a frame has the present bit. */
  ghost predicate NonePresent(m: Memory, f: nat) {
    forall i: nat :: i < 512 ==> Quiet(m, f, i)
  }

  ghost predicate Holds(m: Memory, first: nat, count: nat, usable: set<nat>, w: World) {
    && WorldOk(usable, |m|, w)
    && Encodes(m, w)
    && Chain(m, first, w.free)
    && (forall f :: f in w.free ==> Clean(m, f))
    && count == |w.free|
  }

  // ---------- The walk reads the world ----------

  datatype Right = Write | User

  /** The entry grants the right. */
  predicate Grants(e: nat, r: Right) {
    match r
    case Write => Writeable(e)
    case User => UserMode(e)
  }

  /** The rights of a page are those that every entry on its path grants. */
  predicate PathHas(w: World, root: nat, v: nat, r: Right) {
    && NodeAt(root, v, 3) in w.ent && Grants(w.ent[NodeAt(root, v, 3)], r)
    && NodeAt(root, v, 2) in w.ent && Grants(w.ent[NodeAt(root, v, 2)], r)
    && NodeAt(root, v, 1) in w.ent && Grants(w.ent[NodeAt(root, v, 1)], r)
    && NodeAt(root, v, 0) in w.ent && Grants(w.ent[NodeAt(root, v, 0)], r)
  }

  /** The processor's view of a page according to the world. */
  function Translate(w: World, root: nat, vaddr: Word): Translation {
    var v := PageOf(vaddr);
    var leaf := NodeAt(root, v, 0);
    if leaf in w.ent then
      Mapped(PsePtr(w.ent[leaf]) + PageOffset(vaddr), PathHas(w, root, v, Write), PathHas(w, root, v, User))
    else Fault
  }

  lemma IndexIsChild(root: nat, vaddr: Word, level: nat)
    requires 1 <= level <= 4
    ensures IndexAt(level, vaddr) < 512
    ensures Child(NodeAt(root, PageOf(vaddr), level), IndexAt(level, vaddr)) == NodeAt(root, PageOf(vaddr), level - 1)
  {
    IndicesJoin(vaddr);
  }

  /** A mapped page has all three tables on its path. */
  lemma MappedPath(w: World, root: nat, v: nat)
    requires Shaped(w) && NodeAt(root, v, 0) in w.ent
    ensures NodeAt(root, v, 1) in w.ent && NodeAt(root, v, 2) in w.ent && NodeAt(root, v, 3) in w.ent
  {
    ParentInside(w, root, v, 0);
    ParentInside(w, root, v, 1);
    ParentInside(w, root, v, 2);
  }

  lemma ParentInside(w: World, root: nat, v: nat, level: nat)
    requires Shaped(w) && level <= 2 && NodeAt(root, v, level) in w.ent
    ensures NodeAt(root, v, level + 1) in w.ent
  {
    var n, p := NodeAt(root, v, level), NodeAt(root, v, level + 1);
    ParentAt(root, v, level);
    assert EntryOk(w, n) && IsTable(w, p);
    assert OwnerOk(w, TableOf(w, p));
  }

  /** What the walk does with an entry that has no page-size bit above level 1. */
  lemma WalkUnfold(m: Memory, f: nat, level: nat, i: nat, vaddr: Word, wr: bool, us: bool)
    requires 1 <= level <= 4 && i == IndexAt(level, vaddr) && 512 * f + i < |m|
    ensures var e := m[512 * f + i];
            var r := WalkFrom(m, 4096 * f, level, vaddr, wr, us);
            if !Present(e) then r == Fault
            else if level == 1 then r == Mapped(PsePtr(e) + PageOffset(vaddr), wr && Writeable(e), us && UserMode(e))
            else !PageSize(e) ==> r == WalkFrom(m, PsePtr(e), level - 1, vaddr, wr && Writeable(e), us && UserMode(e))
  {
    assert 4096 * f / 8 + i == 512 * f + i;
  }

  /** One step of the walk, in the frame f of table n, towards the child c. */
  lemma WalkStep(m: Memory, w: World, f: nat, n: Node, c: Node, level: nat, vaddr: Word, wr: bool, us: bool)
    requires Encodes(m, w) && Shaped(w) && 1 <= level <= 4
    requires f in w.owner && w.owner[f] == n && n.level == level
    requires IndexAt(level, vaddr) < 512 && c == Child(n, IndexAt(level, vaddr))
    ensures var r := WalkFrom(m, 4096 * f, level, vaddr, wr, us);
            if c !in w.ent then r == Fault
            else if level == 1 then
              r == Mapped(PsePtr(w.ent[c]) + PageOffset(vaddr), wr && Writeable(w.ent[c]), us && UserMode(w.ent[c]))
            else
              var g := TableOf(w, c);
              g in w.owner && w.owner[g] == c
              && r == WalkFrom(m, 4096 * g, level - 1, vaddr, wr && Writeable(w.ent[c]), us && UserMode(w.ent[c]))
  {
    var i := IndexAt(level, vaddr);
    assert SlotOk(m, w, f, i);
    WalkUnfold(m, f, level, i, vaddr, wr, us);
    if c in w.ent {
      assert EntryOk(w, c);
      if level > 1 {
        assert OwnerOk(w, TableOf(w, c));
      }
    }
  }

  /** The children that the four indices of an address select, from the root down. */
  ghost predicate Selects(root: nat, vaddr: Word, n3: Node, n2: Node, n1: Node, leaf: Node) {
    && (forall level | 1 <= level <= 4 :: IndexAt(level, vaddr) < 512)
    && n3 == Child(Node(root, 4, 0), IndexAt(4, vaddr)) && n2 == Child(n3, IndexAt(3, vaddr))
    && n1 == Child(n2, IndexAt(2, vaddr)) && leaf == Child(n1, IndexAt(1, vaddr))
  }

  /** The world's answer for a page, given the nodes on its path. */
  function PathAnswer(w: World, vaddr: Word, n3: Node, n2: Node, n1: Node, leaf: Node): Translation
    requires leaf in w.ent ==> n3 in w.ent && n2 in w.ent && n1 in w.ent
  {
    if leaf !in w.ent then Fault
    else Mapped(PsePtr(w.ent[leaf]) + PageOffset(vaddr),
                Writeable(w.ent[n3]) && Writeable(w.ent[n2]) && Writeable(w.ent[n1]) && Writeable(w.ent[leaf]),
                UserMode(w.ent[n3]) && UserMode(w.ent[n2]) && UserMode(w.ent[n1]) && UserMode(w.ent[leaf]))
  }

  /** The last two levels of the walk. */
  lemma WalkLow(m: Memory, w: World, f: nat, vaddr: Word, n2: Node, n1: Node, leaf: Node, wr: bool, us: bool)
    requires Encodes(m, w) && Shaped(w) && f in w.owner && w.owner[f] == n2 && n2.level == 2
    requires IndexAt(2, vaddr) < 512 && n1 == Child(n2, IndexAt(2, vaddr))
    requires IndexAt(1, vaddr) < 512 && leaf == Child(n1, IndexAt(1, vaddr))
    requires leaf in w.ent ==> n1 in w.ent
    ensures WalkFrom(m, 4096 * f, 2, vaddr, wr, us) ==
            if leaf !in w.ent then Fault
            else Mapped(PsePtr(w.ent[leaf]) + PageOffset(vaddr),
                        wr && Writeable(w.ent[n1]) && Writeable(w.ent[leaf]),
                        us && UserMode(w.ent[n1]) && UserMode(w.ent[leaf]))
  {
    WalkStep(m, w, f, n2, n1, 2, vaddr, wr, us);
    if n1 in w.ent {
      WalkStep(m, w, TableOf(w, n1), n1, leaf, 1, vaddr, wr && Writeable(w.ent[n1]), us && UserMode(w.ent[n1]));
    }
  }

  lemma WalkMid(m: Memory, w: World, f: nat, vaddr: Word, n3: Node, n2: Node, n1: Node, leaf: Node, wr: bool, us: bool)
    requires Encodes(m, w) && Shaped(w) && f in w.owner && w.owner[f] == n3 && n3.level == 3
    requires IndexAt(3, vaddr) < 512 && n2 == Child(n3, IndexAt(3, vaddr))
    requires IndexAt(2, vaddr) < 512 && n1 == Child(n2, IndexAt(2, vaddr))
    requires IndexAt(1, vaddr) < 512 && leaf == Child(n1, IndexAt(1, vaddr))
    requires leaf in w.ent ==> n2 in w.ent && n1 in w.ent
    ensures WalkFrom(m, 4096 * f, 3, vaddr, wr, us) ==
            if leaf !in w.ent then Fault
            else Mapped(PsePtr(w.ent[leaf]) + PageOffset(vaddr),
                        wr && Writeable(w.ent[n2]) && Writeable(w.ent[n1]) && Writeable(w.ent[leaf]),
                        us && UserMode(w.ent[n2]) && UserMode(w.ent[n1]) && UserMode(w.ent[leaf]))
  {
    WalkStep(m, w, f, n3, n2, 3, vaddr, wr, us);
    if n2 in w.ent {
      WalkLow(m, w, TableOf(w, n2), vaddr, n2, n1, leaf, wr && Writeable(w.ent[n2]), us && UserMode(w.ent[n2]));
    }
  }

  lemma WalkPath(m: Memory, w: World, root: nat, vaddr: Word, n3: Node, n2: Node, n1: Node, leaf: Node)
    requires Encodes(m, w) && Shaped(w) && IsRoot(w, root) && Selects(root, vaddr, n3, n2, n1, leaf)
    requires leaf in w.ent ==> n3 in w.ent && n2 in w.ent && n1 in w.ent
    ensures Walk(m, root, vaddr) == PathAnswer(w, vaddr, n3, n2, n1, leaf)
  {
    assert IndexAt(4, vaddr) < 512 && IndexAt(3, vaddr) < 512 && IndexAt(2, vaddr) < 512 && IndexAt(1, vaddr) < 512;
    WalkStep(m, w, root, Node(root, 4, 0), n3, 4, vaddr, true, true);
    if n3 in w.ent {
      WalkMid(m, w, TableOf(w, n3), vaddr, n3, n2, n1, leaf, Writeable(w.ent[n3]), UserMode(w.ent[n3]));
    }
  }

  /** The path of an address as the indices select it; the map operation works along it. */
  lemma PathOfAddress(w: World, root: nat, paddr: Word, vaddr: Word, flags: nat)
    returns (n3: Node, n2: Node, n1: Node, leaf: Node)
    requires Step(w, Map(root, paddr, vaddr, flags)).Some?
    ensures IsRoot(w, root) && FlagsOk(flags) && Selects(root, vaddr, n3, n2, n1, leaf)
    ensures Step(w, Map(root, paddr, vaddr, flags)) == MapPath(w, n3, n2, n1, leaf, paddr, flags)
  {
    var v := PageOf(vaddr);
    PageSelects(root, vaddr);
    n3, n2, n1, leaf := NodeAt(root, v, 3), NodeAt(root, v, 2), NodeAt(root, v, 1), NodeAt(root, v, 0);
  }

  lemma PageSelects(root: nat, vaddr: Word)
    ensures var v := PageOf(vaddr);
      Selects(root, vaddr, NodeAt(root, v, 3), NodeAt(root, v, 2), NodeAt(root, v, 1), NodeAt(root, v, 0))
  {
    forall level | 1 <= level <= 4 ensures IndexAt(level, vaddr) < 512 {
      IndexIsChild(root, vaddr, level);
    }
    IndexIsChild(root, vaddr, 1);
    IndexIsChild(root, vaddr, 2);
    IndexIsChild(root, vaddr, 3);
    IndexIsChild(root, vaddr, 4);
    IndicesJoin(vaddr);
  }

  /** The four-level walk of memory gives, for every address of every address space, exactly what
      the world says of its page, offset carried through and a fault where nothing is mapped. */
  lemma WalkRefines(m: Memory, first: nat, count: nat, usable: set<nat>, w: World, root: nat, vaddr: Word)
    requires Holds(m, first, count, usable, w) && IsRoot(w, root)
    ensures Walk(m, root, vaddr) == Translate(w, root, vaddr)
  {
    var v := PageOf(vaddr);
    PageSelects(root, vaddr);
    if NodeAt(root, v, 0) in w.ent {
      MappedPath(w, root, v);
    }
    WalkPath(m, w, root, vaddr, NodeAt(root, v, 3), NodeAt(root, v, 2), NodeAt(root, v, 1), NodeAt(root, v, 0));
  }

  /** One step of the words that the walk reads, in the frame f of table n, towards the child c. */
  lemma WordsStep(m: Memory, w: World, f: nat, n: Node, c: Node, level: nat, vaddr: Word)
    requires Encodes(m, w) && Shaped(w) && 1 <= level <= 4
    requires f in w.owner && w.owner[f] == n && n.level == level
    requires IndexAt(level, vaddr) < 512 && c == Child(n, IndexAt(level, vaddr)) && c in w.ent
    ensures var r := WordsFrom(m, 4096 * f, level, vaddr);
            if level == 1 then r == [w.ent[c]]
            else
              var g := TableOf(w, c);
              g in w.owner && w.owner[g] == c && r == [w.ent[c]] + WordsFrom(m, 4096 * g, level - 1, vaddr)
  {
    var i := IndexAt(level, vaddr);
    assert SlotOk(m, w, f, i);
    assert EntryOk(w, c);
    assert 4096 * f / 8 + i == 512 * f + i;
    if level > 1 {
      assert OwnerOk(w, TableOf(w, c));
    }
  }

  lemma WordsLow(m: Memory, w: World, f: nat, vaddr: Word, n2: Node, n1: Node, leaf: Node)
    requires Encodes(m, w) && Shaped(w) && f in w.owner && w.owner[f] == n2 && n2.level == 2
    requires IndexAt(2, vaddr) < 512 && n1 == Child(n2, IndexAt(2, vaddr)) && n1 in w.ent
    requires IndexAt(1, vaddr) < 512 && leaf == Child(n1, IndexAt(1, vaddr)) && leaf in w.ent
    ensures WordsFrom(m, 4096 * f, 2, vaddr) == [w.ent[n1], w.ent[leaf]]
  {
    hide Encodes, Shaped, WordsFrom, IndexAt, TableOf;
    WordsStep(m, w, f, n2, n1, 2, vaddr);
    WordsStep(m, w, TableOf(w, n1), n1, leaf, 1, vaddr);
  }

  lemma WordsPath(m: Memory, w: World, root: nat, vaddr: Word, n3: Node, n2: Node, n1: Node, leaf: Node)
    requires Encodes(m, w) && Shaped(w) && IsRoot(w, root) && Selects(root, vaddr, n3, n2, n1, leaf)
    requires n3 in w.ent && n2 in w.ent && n1 in w.ent && leaf in w.ent
    ensures WalkWords(m, root, vaddr) == [w.ent[n3], w.ent[n2], w.ent[n1], w.ent[leaf]]
  {
    hide Encodes, Shaped, WordsFrom, IndexAt, TableOf;
    assert IndexAt(4, vaddr) < 512 && IndexAt(3, vaddr) < 512 && IndexAt(2, vaddr) < 512 && IndexAt(1, vaddr) < 512;
    WordsStep(m, w, root, Node(root, 4, 0), n3, 4, vaddr);
    WordsStep(m, w, TableOf(w, n3), n3, n2, 3, vaddr);
    WordsLow(m, w, TableOf(w, n2), vaddr, n2, n1, leaf);
  }

  /** For a mapped page the walk reads exactly the entries of the world on its path. */
  lemma WordsRefine(m: Memory, first: nat, count: nat, usable: set<nat>, w: World, root: nat, vaddr: Word)
    requires Holds(m, first, count, usable, w) && IsRoot(w, root) && NodeAt(root, PageOf(vaddr), 0) in w.ent
    ensures var v := PageOf(vaddr);
      && NodeAt(root, v, 3) in w.ent && NodeAt(root, v, 2) in w.ent && NodeAt(root, v, 1) in w.ent
      && WalkWords(m, root, vaddr)
         == [w.ent[NodeAt(root, v, 3)], w.ent[NodeAt(root, v, 2)], w.ent[NodeAt(root, v, 1)], w.ent[NodeAt(root, v, 0)]]
  {
    hide NodeAt, PageOf, Selects, WalkWords, Shaped, Encodes;
    var v := PageOf(vaddr);
    PageSelects(root, vaddr);
    MappedPath(w, root, v);
    WordsPath(m, w, root, vaddr, NodeAt(root, v, 3), NodeAt(root, v, 2), NodeAt(root, v, 1), NodeAt(root, v, 0));
  }

  // ---------- What each store does ----------

  /** m' is m but for the words of frame f. */
  ghost predicate OnlyFrame(m: Memory, m': Memory, f: nat) {
    |m'| == |m| && forall k: nat :: k < |m| && !(512 * f <= k < 512 * f + 512) ==> m'[k] == m[k]
  }

  /** Memory outside the pool and in the frames that are handed out is the same. */
  ghost predicate Spares(usable: set<nat>, held: set<nat>, m: Memory, m': Memory) {
    |m'| == |m| && forall k: nat :: k < |m| && (k / 512 !in usable || k / 512 in held) ==> m'[k] == m[k]
  }

  lemma SparesSelf(usable: set<nat>, held: set<nat>, m: Memory)
    ensures Spares(usable, held, m, m)
  {
  }

  lemma SparesTwice(usable: set<nat>, held: set<nat>, m: Memory, m1: Memory, m2: Memory)
    requires Spares(usable, held, m, m1) && Spares(usable, held, m1, m2)
    ensures Spares(usable, held, m, m2)
  {
  }

  lemma SparesFewer(usable: set<nat>, held: set<nat>, fewer: set<nat>, m: Memory, m': Memory)
    requires Spares(usable, held, m, m') && fewer <= held
    ensures Spares(usable, fewer, m, m')
  {
  }

  lemma FrameSpares(usable: set<nat>, held: set<nat>, m: Memory, m': Memory, f: nat)
    requires OnlyFrame(m, m', f) && f in usable && f !in held
    ensures Spares(usable, held, m, m')
  {
    forall k: nat | k < |m| && (k / 512 !in usable || k / 512 in held) ensures m'[k] == m[k] {
      WordFrame(k, f);
    }
  }

  lemma WordFrame(k: nat, f: nat)
    ensures 512 * f <= k < 512 * f + 512 <==> k / 512 == f
  {
  }

  /** Free and table frames are the pool's own. */
  lemma NotSpared(m: Memory, first: nat, count: nat, usable: set<nat>, w: World, f: nat)
    requires Holds(m, first, count, usable, w) && (f in w.free || f in w.owner)
    ensures f in usable && f !in w.held
  {
  }

  lemma KeepsSlots(m: Memory, m': Memory, w: World, f: nat)
    requires Encodes(m, w) && OnlyFrame(m, m', f) && f !in w.owner
    ensures Encodes(m', w)
  {
    forall g: nat, i: nat | g in w.owner && i < 512 ensures SlotOk(m', w, g, i) {
      assert SlotOk(m, w, g, i);
    }
  }

  lemma KeepsList(m: Memory, m': Memory, first: nat, free: seq<nat>, f: nat)
    requires Chain(m, first, free) && OnlyFrame(m, m', f) && f !in free
    requires forall g :: g in free ==> Clean(m, g)
    ensures Chain(m', first, free) && forall g :: g in free ==> Clean(m', g)
  {
    forall k: nat | k < |free| ensures ChainOk(m', free, k) {
      assert ChainOk(m, free, k);
      assert free[k] in free;
    }
    forall g | g in free ensures Clean(m', g) {
      assert Clean(m, g);
      forall i: nat | 1 <= i < 512 ensures Quiet(m', g, i) {
        assert Quiet(m, g, i);
      }
    }
  }

  /** Writing anything into a frame that was handed out disturbs no list node and no table. */
  lemma WriteHeld(m: Memory, m': Memory, first: nat, count: nat, usable: set<nat>, w: World, f: nat)
    requires Holds(m, first, count, usable, w) && f in w.held && OnlyFrame(m, m', f)
    ensures Holds(m', first, count, usable, w)
  {
    KeepsSlots(m, m', w, f);
    KeepsList(m, m', first, w.free, f);
  }

  /** Unlinking the head: what remains is still the list, and the head is left with one even word. */
  lemma TakeHolds(m: Memory, first: nat, count: nat, usable: set<nat>, w: World)
    requires Holds(m, first, count, usable, w) && w.free != []
    ensures first == 4096 * w.free[0] && 512 * w.free[0] < |m|
    ensures Holds(m, m[512 * w.free[0]], count - 1, usable, Take(w).value)
    ensures NonePresent(m, w.free[0])
  {
    var w', g := Take(w).value, w.free[0];
    TakeKeeps(usable, |m|, w);
    assert ChainOk(m, w.free, 0);
    assert LinkTo(w.free, 1) % 2 == 0;
    forall k: nat | k < |w'.free| ensures ChainOk(m, w'.free, k) {
      assert ChainOk(m, w.free, k + 1);
    }
    forall f: nat, i: nat | f in w'.owner && i < 512 ensures SlotOk(m, w', f, i) {
      assert SlotOk(m, w, f, i);
    }
    assert g in w.free && Clean(m, g);
    assert Quiet(m, g, 0);
  }

  /** The head is NULL exactly when the list is empty, and every listed frame is addressable. */
  lemma HeadOfList(m: Memory, first: nat, count: nat, usable: set<nat>, w: World)
    requires Holds(m, first, count, usable, w)
    ensures first == 0 <==> w.free == []
    ensures forall k: nat :: k < |w.free| ==> FrameOk(w.free[k], |m|)
  {
    assert forall k: nat :: k < |w.free| ==> w.free[k] in w.free;
  }

  lemma HoldsWorld(m: Memory, first: nat, count: nat, usable: set<nat>, w: World)
    requires Holds(m, first, count, usable, w)
    ensures WorldOk(usable, |m|, w) && count == |w.free|
  {
  }

  lemma FreeIsApart(m: Memory, first: nat, count: nat, usable: set<nat>, w: World)
    requires Holds(m, first, count, usable, w)
    ensures forall k: nat :: k < |w.free| ==> w.free[k] !in w.held && w.free[k] !in w.owner
  {
    assert forall k: nat :: k < |w.free| ==> w.free[k] in w.free;
  }

  /** Pushing a cleaned frame. */
  lemma GiveHolds(m: Memory, m': Memory, first: nat, count: nat, usable: set<nat>, w: World, f: nat)
    requires Holds(m, first, count, usable, w) && f in w.held && Clean(m, f)
    requires 512 * f < |m| && first < TWO64 && m' == m[512 * f := first]
    ensures Holds(m', 4096 * f, count + 1, usable, Give(w, f))
  {
    var w' := Give(w, f);
    WriteHeld(m, m', first, count, usable, w, f);
    GiveKeeps(usable, |m|, w, f);
    forall k: nat | k < |w'.free| ensures ChainOk(m', w'.free, k) {
      if k > 0 {
        assert ChainOk(m', w.free, k - 1);
      }
    }
    forall g: nat, i: nat | g in w'.owner && i < 512 ensures SlotOk(m', w', g, i) {
      assert SlotOk(m', w, g, i);
    }
    forall g | g in w'.free ensures Clean(m', g) {
      if g == f {
        forall i: nat | 1 <= i < 512 ensures Quiet(m', f, i) {
          assert Quiet(m, f, i);
        }
      }
    }
  }

  /** A held frame with no present entry is an empty PML4. */
  lemma AdoptHolds(m: Memory, first: nat, count: nat, usable: set<nat>, w: World, g: nat)
    requires Holds(m, first, count, usable, w) && g in w.held && NonePresent(m, g)
    ensures Holds(m, first, count, usable, AdoptRoot(w, g))
    ensures forall c :: c in w.ent ==> c.root != g
  {
    var w' := AdoptRoot(w, g);
    AdoptKeeps(usable, |m|, w, g);
    EntriesHaveRoots(w);
    forall f: nat, i: nat | f in w'.owner && i < 512 ensures SlotOk(m, w', f, i) {
      if f == g {
        assert Quiet(m, g, i) && Child(w'.owner[f], i).root == g;
      } else {
        assert SlotOk(m, w, f, i);
      }
    }
  }

  lemma EntriesHaveRoots(w: World)
    requires Shaped(w)
    ensures forall c :: c in w.ent ==> IsRoot(w, c.root)
  {
    forall c | c in w.ent ensures IsRoot(w, c.root) {
      RootOf(w, c);
    }
  }

  lemma {:induction false} RootOf(w: World, c: Node)
    requires Shaped(w) && c in w.ent
    ensures IsRoot(w, c.root)
    decreases 4 - c.level
  {
    assert EntryOk(w, c);
    var p := Parent(c);
    assert OwnerOk(w, TableOf(w, p));
    if p.level < 4 {
      RootOf(w, p);
    }
  }

  /** A node without an entry has no children. */
  lemma NoChildrenYet(w: World, n: Node)
    requires Shaped(w) && n !in w.ent && n.level <= 3
    ensures forall c :: c in w.ent ==> Parent(c) != n
  {
    forall c | c in w.ent ensures Parent(c) != n {
      assert EntryOk(w, c);
      assert OwnerOk(w, TableOf(w, Parent(c)));
    }
  }

  /** A table is in one frame only. */
  lemma OneFrame(w: World, f: nat, h: nat)
    requires Shaped(w) && f in w.owner && h in w.owner && w.owner[f] == w.owner[h]
    ensures f == h
  {
    assert OwnerOk(w, f) && OwnerOk(w, h);
  }

  lemma DistinctSlots(w: World, f: nat, i: nat, h: nat, j: nat)
    requires Shaped(w) && f in w.owner && h in w.owner && i < 512 && j < 512
    requires Child(w.owner[f], i) == Child(w.owner[h], j)
    ensures f == h && i == j
  {
    var c := Child(w.owner[f], i);
    ChildParent(w.owner[f], c, i);
    ChildParent(w.owner[h], c, j);
    OneFrame(w, f, h);
  }

  /** Storing e in slot i of table frame f changes what that slot says and no other slot. */
  lemma StoreSlot(m: Memory, w: World, f: nat, i: nat, e: Word, h: nat, j: nat)
    requires Shaped(w) && SlotOk(m, w, f, i) && SlotOk(m, w, h, j) && i < 512 && j < 512 && Present(e)
    ensures SlotOk(m[512 * f + i := e], w.(ent := w.ent[Child(w.owner[f], i) := e]), h, j)
  {
    if Child(w.owner[h], j) == Child(w.owner[f], i) {
      DistinctSlots(w, f, i, h, j);
    }
  }

  lemma StoreEntry(m: Memory, m': Memory, w: World, f: nat, i: nat, n: Node, e: Word)
    requires Shaped(w) && Encodes(m, w) && Present(e)
    requires f in w.owner && i < 512 && n == Child(w.owner[f], i)
    requires 512 * f + i < |m| && m' == m[512 * f + i := e]
    ensures Encodes(m', w.(ent := w.ent[n := e]))
  {
    var w' := w.(ent := w.ent[n := e]);
    forall h: nat, j: nat | h in w'.owner && j < 512 ensures SlotOk(m', w', h, j) {
      assert SlotOk(m, w, f, i) && SlotOk(m, w, h, j);
      StoreSlot(m, w, f, i, e, h, j);
    }
  }

  /** Storing, in slot i of table frame f, an entry that points to the zeroed frame g. */
  lemma LinkHolds(m: Memory, m': Memory, first: nat, count: nat, usable: set<nat>, w: World,
                  f: nat, i: nat, g: nat, n: Node, e: Word)
    requires Holds(m, first, count, usable, w) && g in w.held && NonePresent(m, g) && PointsTo(e, g)
    requires f in w.owner && w.owner[f].level >= 2 && i < 512 && n == Child(w.owner[f], i) && n !in w.ent
    requires 512 * f + i < |m| && m' == m[512 * f + i := e]
    ensures Holds(m', first, count, usable, Link(w, g, n, e))
  {
    assert OwnerOk(w, f);
    ChildParent(w.owner[f], n, i);
    LinkKeeps(usable, |m|, w, g, n, e);
    KeepsList(m, m', first, w.free, f);
    StoreEntry(m, m', w, f, i, n, e);
    NewTableEmpty(m, m', w, f, g, n, e);
  }

  /** The frame of a new table has nothing present, and the tree has nothing below the new node. */
  lemma NewTableEmpty(m: Memory, m': Memory, w: World, f: nat, g: nat, n: Node, e: Word)
    requires Shaped(w) && NonePresent(m, g) && OnlyFrame(m, m', f) && f != g && n !in w.ent && 1 <= n.level <= 3
    requires Encodes(m', w.(ent := w.ent[n := e]))
    ensures Encodes(m', Link(w, g, n, e))
  {
    var w1, w' := w.(ent := w.ent[n := e]), Link(w, g, n, e);
    NoChildrenYet(w, n);
    forall h: nat, j: nat | h in w'.owner && j < 512 ensures SlotOk(m', w', h, j) {
      if h == g {
        assert Quiet(m, g, j);
        ChildParent(n, Child(n, j), j);
      } else {
        assert SlotOk(m', w1, h, j);
      }
    }
  }

  /** Storing a present entry in slot i of page table f. */
  lemma LeafHolds(m: Memory, m': Memory, first: nat, count: nat, usable: set<nat>, w: World,
                  f: nat, i: nat, n: Node, e: Word)
    requires Holds(m, first, count, usable, w) && Present(e)
    requires f in w.owner && w.owner[f].level == 1 && i < 512 && n == Child(w.owner[f], i)
    requires 512 * f + i < |m| && m' == m[512 * f + i := e]
    ensures Holds(m', first, count, usable, SetLeaf(w, n, e))
  {
    assert OwnerOk(w, f);
    ChildParent(w.owner[f], n, i);
    SetLeafKeeps(usable, |m|, w, n, e);
    KeepsList(m, m', first, w.free, f);
    StoreEntry(m, m', w, f, i, n, e);
  }
}

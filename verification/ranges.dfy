/** Mapping runs of consecutive pages: where each page goes, and the exact number of tables. */
module Ranges {
  import opened Sets
  import opened Structures
  import opened Wrappers
  import opened Worlds
  import opened PhysicalMemory
  import opened Runs
  import opened History

  function Wrap(x: nat): Word {
    x % TWO64
  }

  /** Map n consecutive pages from vbase to consecutive frames from pbase. */
  function RangeOps(root: nat, pbase: Word, vbase: Word, n: nat, flags: nat): seq<Op> {
    if n == 0 then []
    else
      var k := n - 1;
      RangeOps(root, pbase, vbase, k, flags) + [Map(root, Wrap(pbase + 4096 * k), Wrap(vbase + 4096 * k), flags)]
  }

  // ---------- Histories of joined runs ----------

  lemma {:induction false} HistoryConcat(a: seq<Op>, b: seq<Op>, n: Node)
    ensures LastWrite(a + b, n) == (if LastWrite(b, n).Some? then LastWrite(b, n) else LastWrite(a, n))
    ensures FirstFlags(a + b, n) == (if FirstFlags(a, n).Some? then FirstFlags(a, n) else FirstFlags(b, n))
  {
    if b == [] {
      assert a + b == a;
    } else {
      var init := b[..|b| - 1];
      HistoryConcat(a, init, n);
      assert (a + b)[..|a + b| - 1] == a + init;
    }
  }

  /** A page that was written has its three tables. */
  lemma {:induction false} WrittenPath(ops: seq<Op>, root: nat, v: nat, level: nat)
    requires 1 <= level <= 3 && LastWrite(ops, NodeAt(root, v, 0)).Some?
    ensures FirstFlags(ops, NodeAt(root, v, level)).Some?
  {
    var init, op := ops[..|ops| - 1], ops[|ops| - 1];
    if Touches(op, NodeAt(root, v, 0)) {
      assert Touches(op, NodeAt(root, v, level));
    } else {
      WrittenPath(init, root, v, level);
    }
  }

  ghost predicate SameFlags(ops: seq<Op>, flags: nat) {
    forall i :: 0 <= i < |ops| && ops[i].Map? ==> ops[i].flags == flags
  }

  lemma {:induction false} UniformFlags(ops: seq<Op>, flags: nat, n: Node)
    requires SameFlags(ops, flags)
    ensures FirstFlags(ops, n).Some? ==> FirstFlags(ops, n).value == flags
    ensures LastWrite(ops, n).Some? ==> flags < 4096 && Bits(LastWrite(ops, n).value) == BitsOf(flags)
  {
    if ops != [] {
      var init, op := ops[..|ops| - 1], ops[|ops| - 1];
      UniformFlags(init, flags, n);
      if Touches(op, n) && op.flags < 4096 {
        EntryFields(op.paddr, op.flags);
      }
    }
  }

  /** With one set of flags throughout, a page has exactly the rights of those flags. */
  lemma UniformRights(ops: seq<Op>, flags: nat, root: nat, vaddr: Word)
    requires SameFlags(ops, flags)
    ensures var e := LastWrite(ops, NodeAt(root, PageOf(vaddr), 0));
      Expected(ops, root, vaddr) ==
      if e.None? then Fault else Mapped(PsePtr(e.value) + PageOffset(vaddr), Writeable(flags), UserMode(flags))
  {
    var v := PageOf(vaddr);
    var leaf := NodeAt(root, v, 0);
    if LastWrite(ops, leaf).Some? {
      UniformFlags(ops, flags, leaf);
      RightsOfBits(LastWrite(ops, leaf).value, flags);
      WrittenPath(ops, root, v, 1);
      WrittenPath(ops, root, v, 2);
      WrittenPath(ops, root, v, 3);
      UniformFlags(ops, flags, NodeAt(root, v, 1));
      UniformFlags(ops, flags, NodeAt(root, v, 2));
      UniformFlags(ops, flags, NodeAt(root, v, 3));
    }
  }

  /** With one set of flags throughout, all four words have the low bits of those flags. */
  lemma UniformWords(m: Memory, first: nat, count: nat, usable: set<nat>, w: World, ops: seq<Op>,
                     flags: nat, root: nat, vaddr: Word)
    requires WorldOk(usable, |m|, w) && EmptySpace(w, root) && SameFlags(ops, flags)
    requires Run(w, ops).Some? && IsRoot(Run(w, ops).value, root)
    requires Holds(m, first, count, usable, Run(w, ops).value)
    requires LastWrite(ops, NodeAt(root, PageOf(vaddr), 0)).Some?
    ensures |WalkWords(m, root, vaddr)| == 4
    ensures forall e :: e in WalkWords(m, root, vaddr) ==> e % 4096 == flags / 2 * 2 + 1
  {
    hide Run, LastWrite, FirstFlags, PageOf, WalkWords, NodeAt, SameFlags, Holds;
    var v := PageOf(vaddr);
    MemoryWords(m, first, count, usable, w, ops, root, vaddr);
    UniformFlags(ops, flags, NodeAt(root, v, 0));
    UniformFlags(ops, flags, NodeAt(root, v, 1));
    UniformFlags(ops, flags, NodeAt(root, v, 2));
    UniformFlags(ops, flags, NodeAt(root, v, 3));
  }

  // ---------- Where the pages of a range go ----------

  /** Consecutive page numbers, as long as the 36-bit page number does not overflow. */
  lemma PagesConsecutive(vbase: Word, k: nat)
    requires PageOf(vbase) + k < PAGE_COUNT
    ensures PageOf(Wrap(vbase + 4096 * k)) == PageOf(vbase) + k
  {
    var a, o := vbase / 4096, vbase % 4096;
    var t, u := a / PAGE_COUNT, a % PAGE_COUNT;
    assert vbase + 4096 * k == 4096 * (a + k) + o;
    assert a + k == PAGE_COUNT * t + (u + k);
    QuotientIs(vbase + 4096 * k, TWO64, 0, vbase + 4096 * k);
    QuotientIs(vbase + 4096 * k, 4096, a + k, o);
    QuotientIs(a + k, PAGE_COUNT, t, u + k);
  }

  /** The last write of a page by a range: its own frame inside, none outside. */
  lemma {:induction false} RangeWrites(root: nat, pbase: Word, vbase: Word, n: nat, flags: nat, r: nat, v: nat)
    requires flags < 4096 && PageOf(vbase) + n <= PAGE_COUNT
    ensures LastWrite(RangeOps(root, pbase, vbase, n, flags), NodeAt(r, v, 0)) ==
      if r == root && InRange(vbase, n, v) then Some(RangeEntry(pbase, vbase, flags, v)) else None
  {
    if n > 0 {
      var ops := RangeOps(root, pbase, vbase, n, flags);
      assert ops[..|ops| - 1] == RangeOps(root, pbase, vbase, n - 1, flags);
      RangeWrites(root, pbase, vbase, n - 1, flags, r, v);
      PagesConsecutive(vbase, n - 1);
    }
  }

  predicate InRange(vbase: Word, n: nat, v: nat) {
    PageOf(vbase) <= v < PageOf(vbase) + n
  }

  /** The entry that mapping a range writes for one of its pages. */
  function RangeEntry(pbase: Word, vbase: Word, flags: nat, v: nat): Word
    requires PageOf(vbase) <= v && flags < 4096
  {
    MakeEntry(Wrap(pbase + 4096 * (v - PageOf(vbase))), flags)
  }

  lemma WrapSmall(x: nat)
    requires x < TWO64
    ensures Wrap(x) == x
  {
  }

  /** Page number and offset of the byte x above an address, aligned or not, wrapping or not. */
  lemma PageOfByte(vbase: Word, x: nat)
    ensures var vaddr := Wrap(vbase + x);
      && PageOf(vaddr) == (PageOf(vbase) + (vbase % 4096 + x) / 4096) % PAGE_COUNT
      && PageOffset(vaddr) == (vbase % 4096 + x) % 4096
  {
    var a, o := vbase / 4096, vbase % 4096;
    var k, r := (o + x) / 4096, (o + x) % 4096;
    var s := vbase + x;
    var t := s / TWO64;
    var y := a + k - 0x10_0000_0000_0000 * t;
    assert s == TWO64 * t + Wrap(s) && s == 4096 * (a + k) + r;
    QuotientIs(Wrap(s), 4096, y, r);
    var p, c := a / PAGE_COUNT, a % PAGE_COUNT;
    var z, v := (c + k) / PAGE_COUNT, (c + k) % PAGE_COUNT;
    assert y == PAGE_COUNT * (p - 0x1_0000 * t + z) + v;
    QuotientIs(y, PAGE_COUNT, p - 0x1_0000 * t + z, v);
  }

  lemma PsePtrAligned(e: nat)
    ensures PsePtr(e) % 4096 == 0 && PsePtr(e) <= 0x10_0000_0000_0000 - 4096
  {
  }

  /** An aligned pointer plus an offset is b + x, where the offset is that of o + x, only if b and o
      have the same offset. */
  lemma SameOffset(p: nat, o: nat, b: nat, x: nat)
    ensures p % 4096 == 0 && p + (o + x) % 4096 == b + x ==> o % 4096 == b % 4096
  {
    var r, k := (o + x) % 4096, (o + x) / 4096;
    if p % 4096 == 0 && p + r == b + x {
      assert b == o + 4096 * (p / 4096 - k);
      if p / 4096 >= k {
        QuotientIs(b, 4096, o / 4096 + (p / 4096 - k), o % 4096);
      } else {
        QuotientIs(o, 4096, b / 4096 + (k - p / 4096), b % 4096);
      }
    }
  }

  /** A byte far from the base is not in the base's page. */
  lemma FarByte(pbase: Word, o: nat, x: nat)
    requires o + x >= 8192 && o < 4096
    ensures PsePtr(pbase) + (o + x) % 4096 != pbase + x
  {
    if pbase < 0x10_0000_0000_0000 {
      PointerField(pbase, pbase / 4096, pbase % 4096);
    } else {
      PsePtrAligned(pbase);
    }
  }

  /** Byte x above the physical base, in a range of n pages: the entry of the page v that byte x above
      the virtual base falls in leads to it exactly when the two bases have the same offset, the page
      is one that the range maps for it, and the byte is addressable. */
  lemma CoveredByte(pbase: Word, vbase: Word, n: nat, x: nat, v: nat)
    requires PageOf(vbase) + n <= PAGE_COUNT && x < 4096 * n
    requires v == (PageOf(vbase) + (vbase % 4096 + x) / 4096) % PAGE_COUNT && InRange(vbase, n, v)
    ensures PsePtr(Wrap(pbase + 4096 * (v - PageOf(vbase)))) + (vbase % 4096 + x) % 4096 == pbase + x
      <==> vbase % 4096 == pbase % 4096 && (vbase % 4096 + x) / 4096 < n && pbase + x < 0x10_0000_0000_0000
  {
    hide PageOf, Wrap, PsePtr;
    var o, c, q, b := vbase % 4096, PageOf(vbase), pbase / 4096, pbase % 4096;
    var k, r, y := (o + x) / 4096, (o + x) % 4096, pbase + 4096 * (v - c);
    PsePtrAligned(Wrap(y));
    SameOffset(PsePtr(Wrap(y)), o, pbase, x);
    if k >= n {
      assert c + k == PAGE_COUNT && v == 0;
      WrapSmall(y);
      FarByte(pbase, o, x);
    }
    if o == b && k < n && pbase + x < 0x10_0000_0000_0000 {
      assert v == c + k;
      assert pbase + x == 4096 * (q + k) + r && y == 4096 * (q + k) + b;
      WrapSmall(y);
      PointerField(y, q + k, b);
    }
  }

  /** Byte x of a range whose bases have the same offset: its page, its offset, and where its entry
      leads. */
  lemma RangeByte(pbase: Word, vbase: Word, n: nat, flags: nat, x: nat)
    requires pbase % 4096 == vbase % 4096 && flags < 4096
    requires PageOf(vbase) + n <= PAGE_COUNT && (vbase % 4096 + x) / 4096 < n && pbase + x < 0x10_0000_0000_0000
    ensures var vaddr := Wrap(vbase + x);
      && PageOf(vaddr) == PageOf(vbase) + (vbase % 4096 + x) / 4096 && InRange(vbase, n, PageOf(vaddr))
      && PsePtr(RangeEntry(pbase, vbase, flags, PageOf(vaddr))) + PageOffset(vaddr) == pbase + x
  {
    hide PageOf, MakeEntry, PsePtr, Wrap;
    PageOfByte(vbase, x);
    var v := PageOf(vbase) + (vbase % 4096 + x) / 4096;
    CoveredByte(pbase, vbase, n, x, v);
    EntryFields(Wrap(pbase + 4096 * (v - PageOf(vbase))), flags);
  }

  /** The operations are maps of one address space with one set of flags. */
  predicate MapsOf(ops: seq<Op>, root: nat, flags: nat) {
    forall op :: op in ops ==> op.Map? && op.root == root && op.flags == flags
  }

  lemma {:induction false} RangeMaps(root: nat, pbase: Word, vbase: Word, n: nat, flags: nat)
    ensures MapsOf(RangeOps(root, pbase, vbase, n, flags), root, flags)
  {
    if n > 0 {
      hide Wrap;
      RangeMaps(root, pbase, vbase, n - 1, flags);
    }
  }

  lemma MapsOfLegal(w: World, ops: seq<Op>, root: nat, flags: nat)
    requires MapsOf(ops, root, flags)
    ensures SameFlags(ops, flags)
    ensures IsRoot(w, root) && FlagsOk(flags) ==> AllLegal(w, ops)
  {
    assert forall i :: 0 <= i < |ops| ==> ops[i] in ops;
  }

  // ---------- The tables of a range ----------

  /** The nodes of a level with prefixes lo to hi. */
  function Band(root: nat, level: int, lo: nat, hi: nat): set<Node> {
    if hi < lo then {} else if lo == hi then {Node(root, level, lo)}
    else Band(root, level, lo, hi - 1) + {Node(root, level, hi)}
  }

  lemma {:induction false} BandExact(root: nat, level: int, lo: nat, hi: nat)
    requires lo <= hi
    ensures |Band(root, level, lo, hi)| == hi - lo + 1
    ensures forall n :: n in Band(root, level, lo, hi) <==> n.root == root && n.level == level && lo <= n.prefix <= hi
    decreases hi
  {
    if lo < hi {
      BandExact(root, level, lo, hi - 1);
    }
  }

  lemma UpMonotone(a: nat, z: nat)
    requires a <= z
    ensures Up(a, 1) <= Up(z, 1) && Up(a, 2) <= Up(z, 2) && Up(a, 3) <= Up(z, 3)
  {
  }

  /** The tables on the paths of the pages a to z. */
  function Tables(root: nat, a: nat, z: nat): set<Node>
  {
    Band(root, 1, Up(a, 1), Up(z, 1)) + Band(root, 2, Up(a, 2), Up(z, 2)) + Band(root, 3, Up(a, 3), Up(z, 3))
  }

  /** The number of tables that n pages from page a need below the root. */
  function RangeCost(a: nat, n: nat): int {
    if n == 0 then 0
    else
      var z := a + n - 1;
      (Up(z, 1) - Up(a, 1) + 1) + (Up(z, 2) - Up(a, 2) + 1) + (Up(z, 3) - Up(a, 3) + 1)
  }

  lemma DisjointSize<T>(a: set<T>, b: set<T>, c: set<T>)
    requires a !! b && (a + b) !! c
    ensures |a + b + c| == |a| + |b| + |c|
  {
  }

  lemma BandsExact(root: nat, l1: nat, h1: nat, l2: nat, h2: nat, l3: nat, h3: nat)
    requires l1 <= h1 && l2 <= h2 && l3 <= h3
    ensures var t := Band(root, 1, l1, h1) + Band(root, 2, l2, h2) + Band(root, 3, l3, h3);
      |t| == (h1 - l1 + 1) + (h2 - l2 + 1) + (h3 - l3 + 1) && forall n :: n in t ==> n.root == root
  {
    BandExact(root, 1, l1, h1);
    BandExact(root, 2, l2, h2);
    BandExact(root, 3, l3, h3);
    DisjointSize(Band(root, 1, l1, h1), Band(root, 2, l2, h2), Band(root, 3, l3, h3));
  }

  lemma TablesSize(root: nat, a: nat, n: nat)
    requires n >= 1
    ensures |Tables(root, a, a + n - 1)| == RangeCost(a, n)
    ensures forall t :: t in Tables(root, a, a + n - 1) ==> t.root == root
  {
    hide Up, Band;
    var z := a + n - 1;
    UpMonotone(a, z);
    BandsExact(root, Up(a, 1), Up(z, 1), Up(a, 2), Up(z, 2), Up(a, 3), Up(z, 3));
  }

  lemma UpNext(v: nat, level: nat)
    requires 1 <= level <= 3
    ensures Up(v + 1, level) == Up(v, level) || Up(v + 1, level) == Up(v, level) + 1
  {
  }

  lemma BandGrows(root: nat, level: int, lo: nat, hi: nat, x: nat)
    requires lo <= hi && (x == hi || x == hi + 1)
    ensures Band(root, level, lo, x) == Band(root, level, lo, hi) + {Node(root, level, x)}
  {
    BandExact(root, level, lo, hi);
    BandExact(root, level, lo, x);
  }

  function PathNodes(root: nat, v: nat): set<Node> {
    {NodeAt(root, v, 1)} + {NodeAt(root, v, 2)} + {NodeAt(root, v, 3)}
  }

  lemma PathIsNodes(op: Op)
    requires op.Map?
    ensures Path(op) == PathNodes(op.root, PageOf(op.vaddr))
  {
  }

  lemma RangePathStep(root: nat, pbase: Word, vbase: Word, n: nat, flags: nat, z: nat)
    requires n >= 1 && z == PageOf(vbase) + (n - 1) && z < PAGE_COUNT
    ensures PathAll(RangeOps(root, pbase, vbase, n, flags)) ==
            PathAll(RangeOps(root, pbase, vbase, n - 1, flags)) + PathNodes(root, z)
  {
    var k := n - 1;
    var op := Map(root, Wrap(pbase + 4096 * k), Wrap(vbase + 4096 * k), flags);
    PathAllSnoc(RangeOps(root, pbase, vbase, k, flags), op);
    PagesConsecutive(vbase, k);
    PathIsNodes(op);
  }

  lemma TablesOne(root: nat, a: nat)
    ensures Tables(root, a, a) == PathNodes(root, a)
  {
  }

  lemma Regroup<T>(b1: set<T>, b2: set<T>, b3: set<T>, n1: set<T>, n2: set<T>, n3: set<T>)
    ensures (b1 + n1) + (b2 + n2) + (b3 + n3) == (b1 + b2 + b3) + (n1 + n2 + n3)
  {
  }

  lemma TablesGrow(root: nat, a: nat, z: nat)
    requires a < z
    ensures Tables(root, a, z) == Tables(root, a, z - 1) + PathNodes(root, z)
  {
    UpMonotone(a, z - 1);
    LevelGrows(root, a, z, 1);
    LevelGrows(root, a, z, 2);
    LevelGrows(root, a, z, 3);
    Regroup(Band(root, 1, Up(a, 1), Up(z - 1, 1)), Band(root, 2, Up(a, 2), Up(z - 1, 2)),
            Band(root, 3, Up(a, 3), Up(z - 1, 3)),
            {NodeAt(root, z, 1)}, {NodeAt(root, z, 2)}, {NodeAt(root, z, 3)});
  }

  lemma LevelGrows(root: nat, a: nat, z: nat, level: nat)
    requires a < z && 1 <= level <= 3
    ensures Up(a, level) <= Up(z - 1, level) <= Up(z, level)
    ensures Band(root, level, Up(a, level), Up(z, level)) ==
            Band(root, level, Up(a, level), Up(z - 1, level)) + {NodeAt(root, z, level)}
  {
    UpMonotone(a, z - 1);
    UpNext(z - 1, level);
    BandGrows(root, level, Up(a, level), Up(z - 1, level), Up(z, level));
  }

  /** The tables that the operations touch are those of the pages a to z. */
  ghost predicate TouchesTables(ops: seq<Op>, root: nat, a: nat, z: nat) {
    PathAll(ops) == Tables(root, a, z)
  }

  lemma TouchesOne(root: nat, pbase: Word, vbase: Word, flags: nat, a: nat)
    requires a == PageOf(vbase)
    ensures TouchesTables(RangeOps(root, pbase, vbase, 1, flags), root, a, a)
  {
    RangePathStep(root, pbase, vbase, 1, flags, a);
    RangeNone(root, pbase, vbase, 0, flags);
    TablesOne(root, a);
  }

  lemma TouchesNext(root: nat, pbase: Word, vbase: Word, n: nat, flags: nat, a: nat, z: nat)
    requires n >= 1 && a == PageOf(vbase) && z == a + (n - 1) && a < z < PAGE_COUNT
    requires TouchesTables(RangeOps(root, pbase, vbase, n - 1, flags), root, a, z - 1)
    ensures TouchesTables(RangeOps(root, pbase, vbase, n, flags), root, a, z)
  {
    RangePathStep(root, pbase, vbase, n, flags, z);
    TablesGrow(root, a, z);
  }

  /** Mapping a range touches exactly the tables whose prefixes lie between those of its ends. */
  lemma {:induction false} RangePath(root: nat, pbase: Word, vbase: Word, n: nat, flags: nat, a: nat, z: nat)
    requires n >= 1 && a == PageOf(vbase) && z == a + (n - 1) && z < PAGE_COUNT
    ensures TouchesTables(RangeOps(root, pbase, vbase, n, flags), root, a, z)
  {
    if n == 1 {
      TouchesOne(root, pbase, vbase, flags, a);
    } else {
      RangePath(root, pbase, vbase, n - 1, flags, a, z - 1);
      TouchesNext(root, pbase, vbase, n, flags, a, z);
    }
  }

  lemma RangeNone(root: nat, pbase: Word, vbase: Word, n: nat, flags: nat)
    requires n == 0
    ensures PathAll(RangeOps(root, pbase, vbase, n, flags)) == {}
  {
  }

  lemma RangePathSize(root: nat, pbase: Word, vbase: Word, n: nat, flags: nat)
    requires PageOf(vbase) + n <= PAGE_COUNT
    ensures |PathAll(RangeOps(root, pbase, vbase, n, flags))| == RangeCost(PageOf(vbase), n)
  {
    hide PageOf, RangeOps, Tables, RangeCost;
    var a := PageOf(vbase);
    if n == 0 {
      RangeNone(root, pbase, vbase, n, flags);
      RangeCostNone(a, n);
    } else {
      RangePath(root, pbase, vbase, n, flags, a, a + n - 1);
      TablesSize(root, a, n);
    }
  }

  lemma RangeCostNone(a: nat, n: nat)
    requires n == 0
    ensures RangeCost(a, n) == 0
  {
  }

  /** A range costs at most its own tables, and exactly them in an empty address space. */
  lemma RangeRunCost(w: World, root: nat, pbase: Word, vbase: Word, n: nat, flags: nat)
    requires PageOf(vbase) + n <= PAGE_COUNT
    ensures CostsRange(w, RangeOps(root, pbase, vbase, n, flags), root, PageOf(vbase), n)
  {
    if n == 0 {
      RangeNone(root, pbase, vbase, n, flags);
      assert {} - TableNodes(w) == {};
    } else {
      var a := PageOf(vbase);
      RangePath(root, pbase, vbase, n, flags, a, a + n - 1);
      TouchedCosts(w, RangeOps(root, pbase, vbase, n, flags), root, a, n);
    }
  }

  ghost predicate CostsRange(w: World, ops: seq<Op>, root: nat, a: nat, n: nat) {
    && Cost(w, ops) <= RangeCost(a, n)
    && (EmptySpace(w, root) ==> Cost(w, ops) == RangeCost(a, n))
  }

  lemma TouchedCosts(w: World, ops: seq<Op>, root: nat, a: nat, n: nat)
    requires n >= 1 && TouchesTables(ops, root, a, a + n - 1)
    ensures CostsRange(w, ops, root, a, n)
  {
    TablesSize(root, a, n);
    TablesNew(w, root, Tables(root, a, a + n - 1));
  }

  lemma TablesNew(w: World, root: nat, T: set<Node>)
    requires forall n :: n in T ==> n.root == root
    ensures |T - TableNodes(w)| <= |T|
    ensures EmptySpace(w, root) ==> |T - TableNodes(w)| == |T|
  {
    SubsetSize(T - TableNodes(w), T);
    assert EmptySpace(w, root) ==> T - TableNodes(w) == T;
  }

  function CeilDiv(n: nat, d: nat): nat
    requires d > 0
  {
    (n + d - 1) / d
  }

  /** However a range is aligned, it needs at most one table more per level than its length says. */
  lemma RangeBound(a: nat, n: nat)
    requires n >= 1
    ensures RangeCost(a, n) <= (CeilDiv(n, 0x200) + 1) + (CeilDiv(n, 0x4_0000) + 1) + (CeilDiv(n, 0x800_0000) + 1)
  {
    BandBound(a, n, 0x200);
    BandBound(a, n, 0x4_0000);
    BandBound(a, n, 0x800_0000);
  }

  lemma BandBound(a: nat, n: nat, d: nat)
    requires n >= 1 && d >= 1
    ensures (a + n - 1) / d - a / d <= CeilDiv(n, d)
  {
    var q, c := a / d, CeilDiv(n, d);
    assert a == d * q + a % d;
    assert n + d - 1 == d * c + (n + d - 1) % d;
    var x := (a + n - 1) / d;
    assert a + n - 1 == d * x + (a + n - 1) % d;
    if x - q > c {
      Distribute(d, x, q + c);
      MulAtLeast(d, x - q - c);
    }
  }

  /** The 4 GiB direct map: 2^20 pages need at most 2056 tables, and exactly 2053 when the first is
      aligned to 512 GiB. */
  lemma DirectMapCost(a: nat)
    ensures RangeCost(a, 0x10_0000) <= 2056
    ensures a % 0x800_0000 == 0 ==> RangeCost(a, 0x10_0000) == 2053
  {
    RangeBound(a, 0x10_0000);
    if a % 0x800_0000 == 0 {
      var q := a / 0x800_0000;
      var b := a + 0xF_FFFF;
      QuotientIs(a, 0x200, 0x4_0000 * q, 0);
      QuotientIs(b, 0x200, 0x4_0000 * q + 2047, 511);
      QuotientIs(a, 0x4_0000, 0x200 * q, 0);
      QuotientIs(b, 0x4_0000, 0x200 * q + 3, 0x3_FFFF);
      QuotientIs(b, 0x800_0000, q, 0xF_FFFF);
    }
  }
}

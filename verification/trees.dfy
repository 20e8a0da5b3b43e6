/** The exact size of an address space's tree. */
module Trees {
  import opened Structures
  import opened Worlds
  import opened PhysicalMemory
  import opened Runs
  import opened History

  // ---------- Size ----------

  /** The pages mapped in an address space. */
  function Pages(w: World, root: nat): set<nat> {
    set n | n in w.ent && n.root == root && n.level == 0 :: n.prefix
  }

  /** The frames that hold its tables, root included. */
  function TableFrames(w: World, root: nat): set<nat> {
    set f | f in w.owner && w.owner[f].root == root
  }

  function FramesAt(w: World, root: nat, level: int): set<nat> {
    set f | f in w.owner && w.owner[f].root == root && w.owner[f].level == level
  }

  /** The prefixes of a set of pages at a level: page numbers shifted by 9, 18 or 27 bits. */
  function Prefixes(pages: set<nat>, level: nat): set<nat> {
    set v | v in pages :: Up(v, level)
  }

  /** Every table is on the path of a mapped page. */
  ghost predicate Tight(w: World, root: nat) {
    forall n :: n in w.ent && n.root == root && n.level >= 1 ==> exists v: nat :: Below(w, n, v)
  }

  predicate Below(w: World, n: Node, v: nat) {
    NodeAt(n.root, v, 0) in w.ent && 1 <= n.level <= 3 && n == NodeAt(n.root, v, n.level)
  }

  lemma RemoveOne(m: map<nat, nat>, a: nat)
    requires a in m && forall b :: b in m && m[a] == m[b] ==> a == b
    ensures |m.Keys| == |(m - {a}).Keys| + 1 && |m.Values| == |(m - {a}).Values| + 1
  {
    var rest := m - {a};
    assert m.Keys == rest.Keys + {a};
    assert m[a] !in rest.Values;
    assert m.Values == rest.Values + {m[a]} by {
      forall x ensures x in m.Values <==> x in rest.Values + {m[a]} {
        if x in m.Values {
          var k :| k in m && m[k] == x;
          assert k == a || k in rest;
        }
      }
    }
  }

  lemma {:induction false} InjectiveSize(m: map<nat, nat>)
    requires forall a, b :: a in m && b in m && m[a] == m[b] ==> a == b
    ensures |m.Keys| == |m.Values|
  {
    if m.Keys != {} {
      var a :| a in m.Keys;
      var rest := m - {a};
      InjectiveSize(rest);
      RemoveOne(m, a);
    }
  }

  /** The frames of a level, each with its prefix. */
  function PrefixOfFrame(w: World, root: nat, level: int): map<nat, nat> {
    map f | f in FramesAt(w, root, level) :: w.owner[f].prefix
  }

  lemma PrefixInjective(w: World, root: nat, level: nat)
    requires Shaped(w)
    ensures var m := PrefixOfFrame(w, root, level); forall a, b :: a in m && b in m && m[a] == m[b] ==> a == b
  {
    var m := PrefixOfFrame(w, root, level);
    forall a, b | a in m && b in m && m[a] == m[b] ensures a == b {
      OneFrame(w, a, b);
    }
  }

  /** A frame's prefix comes from a mapped page. */
  lemma FrameHasPage(w: World, root: nat, level: nat, f: nat)
    requires Shaped(w) && Tight(w, root) && 1 <= level <= 3 && f in FramesAt(w, root, level)
    ensures w.owner[f].prefix in Prefixes(Pages(w, root), level)
  {
    assert OwnerOk(w, f);
    var v: nat :| Below(w, w.owner[f], v);
    PageNode(w, root, v);
  }

  /** A mapped page has a frame for its prefix. */
  lemma PageHasFrame(w: World, root: nat, level: nat, v: nat)
    requires Shaped(w) && 1 <= level <= 3 && v in Pages(w, root)
    ensures Up(v, level) in PrefixOfFrame(w, root, level).Values
  {
    PageNode(w, root, v);
    MappedPath(w, root, v);
    var n := NodeAt(root, v, level);
    assert EntryOk(w, n);
    var m := PrefixOfFrame(w, root, level);
    assert TableOf(w, n) in m && m[TableOf(w, n)] == Up(v, level);
  }

  /** The tables of one level are as many as the prefixes of the mapped pages at that level. */
  lemma LevelSize(w: World, root: nat, level: nat)
    requires Shaped(w) && Tight(w, root) && 1 <= level <= 3
    ensures |FramesAt(w, root, level)| == |Prefixes(Pages(w, root), level)|
  {
    hide Shaped, Tight, FramesAt, Pages, Up;
    var m := PrefixOfFrame(w, root, level);
    PrefixInjective(w, root, level);
    InjectiveSize(m);
    assert m.Keys == FramesAt(w, root, level);
    forall p: nat ensures p in m.Values <==> p in Prefixes(Pages(w, root), level) {
      if p in m.Values {
        var f :| f in m && m[f] == p;
        FrameHasPage(w, root, level, f);
      }
      if p in Prefixes(Pages(w, root), level) {
        var v :| v in Pages(w, root) && Up(v, level) == p;
        PageHasFrame(w, root, level, v);
      }
    }
    assert m.Values == Prefixes(Pages(w, root), level);
  }

  lemma DisjointSizes<T>(a: set<T>, b: set<T>, c: set<T>, d: set<T>)
    requires a !! b && (a + b) !! c && (a + b + c) !! d
    ensures |a + b + c + d| == |a| + |b| + |c| + |d|
  {
  }

  lemma FramesByLevel(w: World, root: nat)
    requires Shaped(w) && IsRoot(w, root)
    ensures |TableFrames(w, root)| ==
            1 + |FramesAt(w, root, 3)| + |FramesAt(w, root, 2)| + |FramesAt(w, root, 1)|
  {
    hide Shaped, TableFrames, FramesAt;
    var a, b, c := FramesAt(w, root, 3), FramesAt(w, root, 2), FramesAt(w, root, 1);
    forall f: nat ensures f in TableFrames(w, root) <==> f == root || f in a || f in b || f in c
                  ensures !(f in a && f in b) && !(f in a && f in c) && !(f in b && f in c)
                  ensures f == root ==> f !in a && f !in b && f !in c {
      FrameLevel(w, root, f);
    }
    assert TableFrames(w, root) == {root} + a + b + c;
    DisjointSizes({root}, a, b, c);
  }

  lemma FrameLevel(w: World, root: nat, f: nat)
    requires Shaped(w) && IsRoot(w, root)
    ensures f in TableFrames(w, root) <==>
      f == root || f in FramesAt(w, root, 3) || f in FramesAt(w, root, 2) || f in FramesAt(w, root, 1)
    ensures forall i, j :: f in FramesAt(w, root, i) && f in FramesAt(w, root, j) ==> i == j
    ensures f == root ==> forall i :: i != 4 ==> f !in FramesAt(w, root, i)
  {
    if f in w.owner {
      assert OwnerOk(w, f);
    }
  }

  /** The tree of V mapped pages holds 1 + |V >> 27| + |V >> 18| + |V >> 9| tables. */
  lemma TreeSize(w: World, root: nat)
    requires Shaped(w) && IsRoot(w, root) && Tight(w, root)
    ensures var V := Pages(w, root);
      |TableFrames(w, root)| == 1 + |Prefixes(V, 3)| + |Prefixes(V, 2)| + |Prefixes(V, 1)|
  {
    hide Shaped, Tight, FramesAt, TableFrames, Prefixes, Pages;
    FramesByLevel(w, root);
    LevelSize(w, root, 3);
    LevelSize(w, root, 2);
    LevelSize(w, root, 1);
  }

  lemma StepTight(usable: set<nat>, size: nat, w: World, op: Op, root: nat)
    requires WorldOk(usable, size, w) && Step(w, op).Some? && Tight(w, root)
    ensures Tight(Step(w, op).value, root)
  {
    hide Step, WorldOk;
    FreeApart(usable, size, w);
    var w' := Step(w, op).value;
    forall n | n in w'.ent && n.root == root && n.level >= 1 ensures exists v: nat :: Below(w', n, v) {
      StepEntry(w, op, n);
      if Touches(op, n) {
        var v := PageOf(op.vaddr);
        StepEntry(w, op, NodeAt(n.root, v, 0));
        assert Below(w', n, v);
      } else {
        var v: nat :| Below(w, n, v);
        StepEntry(w, op, NodeAt(n.root, v, 0));
        assert Below(w', n, v);
      }
    }
  }

  /** Operations never leave a table without a page. */
  lemma {:induction false} RunTight(usable: set<nat>, size: nat, w: World, ops: seq<Op>, root: nat)
    requires WorldOk(usable, size, w) && Run(w, ops).Some? && Tight(w, root)
    ensures Tight(Run(w, ops).value, root)
  {
    if ops != [] {
      hide Step, WorldOk, Tight;
      var init, op := ops[..|ops| - 1], ops[|ops| - 1];
      RunTight(usable, size, w, init, root);
      RunKeeps(usable, size, w, init);
      StepTight(usable, size, Run(w, init).value, op, root);
    }
  }

  /** The pages that the operations map in an address space. */
  function MappedPages(ops: seq<Op>, root: nat): set<nat> {
    if ops == [] then {}
    else
      var op := ops[|ops| - 1];
      MappedPages(ops[..|ops| - 1], root) + (if op.Map? && op.root == root then {PageOf(op.vaddr)} else {})
  }

  lemma StepPages(usable: set<nat>, size: nat, w: World, op: Op, root: nat)
    requires WorldOk(usable, size, w) && Step(w, op).Some?
    ensures Pages(Step(w, op).value, root) == Pages(w, root) + (if op.Map? && op.root == root then {PageOf(op.vaddr)} else {})
  {
    hide Step, WorldOk;
    FreeApart(usable, size, w);
    var w' := Step(w, op).value;
    forall v: nat ensures v in Pages(w', root) <==> NodeAt(root, v, 0) in w'.ent
                  ensures v in Pages(w, root) <==> NodeAt(root, v, 0) in w.ent {
      PageNode(w', root, v);
      PageNode(w, root, v);
    }
    forall v: nat ensures v in Pages(w', root) <==>
      v in Pages(w, root) || (op.Map? && op.root == root && v == PageOf(op.vaddr)) {
      StepEntry(w, op, NodeAt(root, v, 0));
    }
  }

  lemma PageNode(w: World, root: nat, v: nat)
    ensures v in Pages(w, root) <==> NodeAt(root, v, 0) in w.ent
  {
    if NodeAt(root, v, 0) in w.ent {
      assert NodeAt(root, v, 0).prefix == v;
    }
    if v in Pages(w, root) {
      var n :| n in w.ent && n.root == root && n.level == 0 && n.prefix == v;
      assert n == NodeAt(root, v, 0);
    }
  }

  lemma {:induction false} RunPages(usable: set<nat>, size: nat, w: World, ops: seq<Op>, root: nat)
    requires WorldOk(usable, size, w) && Run(w, ops).Some?
    ensures Pages(Run(w, ops).value, root) == Pages(w, root) + MappedPages(ops, root)
  {
    if ops != [] {
      hide Step, WorldOk, Pages;
      var init, op := ops[..|ops| - 1], ops[|ops| - 1];
      RunPages(usable, size, w, init, root);
      RunKeeps(usable, size, w, init);
      StepPages(usable, size, Run(w, init).value, op, root);
    }
  }

  /** After any run, the tree of a space that began empty has exactly the tables that its mapped
      pages V call for: 1 + |V >> 27| + |V >> 18| + |V >> 9|. */
  lemma TreeAfterRun(usable: set<nat>, size: nat, w: World, ops: seq<Op>, root: nat)
    requires WorldOk(usable, size, w) && Run(w, ops).Some? && EmptySpace(w, root) && IsRoot(Run(w, ops).value, root)
    ensures var V := MappedPages(ops, root);
      |TableFrames(Run(w, ops).value, root)| == 1 + |Prefixes(V, 3)| + |Prefixes(V, 2)| + |Prefixes(V, 1)|
  {
    hide Run, Prefixes, TableFrames;
    var w' := Run(w, ops).value;
    RunKeeps(usable, size, w, ops);
    RunTight(usable, size, w, ops, root);
    RunPages(usable, size, w, ops, root);
    assert Pages(w, root) == {};
    assert Pages(w', root) == MappedPages(ops, root);
    TreeSize(w', root);
  }

  /** Any run lowers the free count by the number of tables its maps add and of frames that gets and
      new roots take, less those that are put back. */
  lemma FramesBecomeTables(usable: set<nat>, size: nat, w: World, ops: seq<Op>)
    requires WorldOk(usable, size, w) && Run(w, ops).Some?
    ensures var w' := Run(w, ops).value;
      |w.free| - |w'.free| == |TableNodes(w')| - |TableNodes(w)| + Balance(ops)
  {
    hide Run, TableNodes, PathAll, Balance, AllPermitted, Fits;
    RunPermitted(w, ops);
    RunBalance(usable, size, w, ops);
    var K, P := TableNodes(w), PathAll(ops);
    assert K + P == K + (P - K);
  }
}

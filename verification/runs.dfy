/** Runs of pool and map operations: what every page translates to, with which rights, and how
    many frames that took, read off the operations alone. */
module Runs {
  import opened Structures
  import opened Wrappers
  import opened Worlds

  // ---------- Adding tables ----------

  /** The low 12 bits of an entry: its flags with the present bit. */
  function Bits(e: Word): nat {
    e % 4096
  }

  function BitsOf(flags: nat): nat {
    flags / 2 * 2 + 1
  }

  /** How many of the tables T a tree with the entries K lacks. */
  function Missing<N>(T: set<N>, K: set<N>): nat {
    |T - K|
  }

  /** w' is w with the missing ones of the tables T added, with these flag bits, for which the
      front of the free list paid. */
  ghost predicate Grown(w: World, w': World, T: set<Node>, bits: nat) {
    && Added(w.ent, w'.ent, T, bits)
    && Paid(w, w', Missing(T, w.ent.Keys))
  }

  ghost predicate Added(ent: map<Node, Word>, ent': map<Node, Word>, T: set<Node>, bits: nat) {
    && ent'.Keys == ent.Keys + T
    && (forall n :: n in ent ==> ent'[n] == ent[n])
    && (forall n :: n in T && n !in ent ==> Bits(ent'[n]) == bits)
  }

  predicate Paid(w: World, w': World, c: nat) {
    c <= |w.free| && w'.free == w.free[c..] && w'.held == w.held
  }

  lemma EnsureBits(w: World, n: Node, flags: nat)
    requires flags < 4096 && n !in w.ent && w.free != []
    ensures var w' := EnsureTable(w, n, flags).value; n in w'.ent && Bits(w'.ent[n]) == BitsOf(flags)
  {
    EntryFields(4096 * w.free[0], flags);
  }

  lemma EnsureGrows(w: World, n: Node, flags: nat)
    requires flags < 4096 && FreeNotHeld(w)
    ensures var r := EnsureTable(w, n, flags);
      if n !in w.ent && w.free == [] then r == None
      else r.Some? && Grown(w, r.value, {n}, BitsOf(flags)) && FreeNotHeld(r.value)
  {
    hide Missing, Bits, BitsOf, MakeEntry;
    MissingOne(n, w.ent.Keys);
    if n !in w.ent && w.free != [] {
      var g := w.free[0];
      EnsureBits(w, n, flags);
      assert g in w.free && w.held + {g} - {g} == w.held;
    }
  }

  lemma MissingOne<N>(n: N, K: set<N>)
    ensures Missing({n}, K) == if n in K then 0 else 1
  {
    assert {n} - K == if n in K then {} else {n};
  }

  lemma MissingTwice<T>(K: set<T>, T1: set<T>, T2: set<T>)
    ensures Missing(T1 + T2, K) == Missing(T1, K) + Missing(T2, K + T1)
  {
    assert (T1 + T2) - K == (T1 - K) + (T2 - (K + T1));
  }

  lemma EntriesAddedTwice(e: map<Node, Word>, e1: map<Node, Word>, e2: map<Node, Word>, T1: set<Node>, T2: set<Node>, bits: nat)
    requires Added(e, e1, T1, bits) && Added(e1, e2, T2, bits)
    ensures e1.Keys == e.Keys + T1 && Added(e, e2, T1 + T2, bits)
  {
    hide Bits;
    forall n | n in e ensures e2[n] == e[n] {
      assert n in e1;
    }
    forall n | n in T1 + T2 && n !in e ensures Bits(e2[n]) == bits {
      if n in T1 {
        assert n in e1;
      } else {
        assert n !in e1;
      }
    }
  }

  lemma GrownTwice(w: World, w1: World, w2: World, T1: set<Node>, T2: set<Node>, bits: nat)
    requires Grown(w, w1, T1, bits) && Grown(w1, w2, T2, bits)
    ensures Grown(w, w2, T1 + T2, bits)
  {
    hide Added, Paid, Missing;
    EntriesAddedTwice(w.ent, w1.ent, w2.ent, T1, T2, bits);
    MissingTwice(w.ent.Keys, T1, T2);
    PaidTwice(w, w1, w2, Missing(T1, w.ent.Keys), Missing(T2, w1.ent.Keys));
  }

  /** Ensuring several tables in order. */
  function EnsureAll(w: World, ns: seq<Node>, flags: nat): Option<World>
    requires flags < 4096
    decreases |ns|
  {
    if ns == [] then Some(w)
    else
      var w1 :- EnsureTable(w, ns[0], flags);
      EnsureAll(w1, ns[1..], flags)
  }

  function NodeSet(ns: seq<Node>): set<Node> {
    set n | n in ns
  }

  /** Tables T were asked for: they were added, or the list was too short for the missing ones. */
  ghost predicate Asked(w: World, r: Option<World>, T: set<Node>, bits: nat) {
    if r.Some? then Grown(w, r.value, T, bits) else Missing(T, w.ent.Keys) > |w.free|
  }

  lemma AskedTwice(w: World, w1: World, r: Option<World>, T1: set<Node>, T2: set<Node>, bits: nat)
    requires Grown(w, w1, T1, bits) && Asked(w1, r, T2, bits)
    ensures Asked(w, r, T1 + T2, bits)
  {
    hide Bits, Missing;
    MissingTwice(w.ent.Keys, T1, T2);
    if r.Some? {
      GrownTwice(w, w1, r.value, T1, T2, bits);
    }
  }

  lemma AskedNone(w: World, bits: nat)
    ensures Asked(w, Some(w), {}, bits)
  {
    assert ({} - w.ent.Keys) == {};
  }

  lemma AskedEmpty(w: World, n: Node, T: set<Node>, bits: nat)
    requires n in T && n !in w.ent && w.free == []
    ensures Asked(w, None, T, bits)
  {
    assert n in T - w.ent.Keys;
  }

  predicate FreeNotHeld(w: World) {
    forall f :: f in w.free ==> f !in w.held
  }

  /** Ensuring tables succeeds exactly when the free list has one frame for each missing one. */
  lemma {:induction false} EnsureAllGrows(w: World, ns: seq<Node>, flags: nat)
    requires flags < 4096 && FreeNotHeld(w)
    decreases |ns|
    ensures Asked(w, EnsureAll(w, ns, flags), NodeSet(ns), BitsOf(flags))
  {
    hide EnsureTable, Asked, Grown;
    if ns == [] {
      assert NodeSet(ns) == {} && EnsureAll(w, ns, flags) == Some(w);
      AskedNone(w, BitsOf(flags));
    } else {
      var n, rest := ns[0], ns[1..];
      EnsureGrows(w, n, flags);
      var r1, r := EnsureTable(w, n, flags), EnsureAll(w, ns, flags);
      assert NodeSet(ns) == {n} + NodeSet(rest);
      if r1.Some? {
        EnsureAllGrows(r1.value, rest, flags);
        assert r == EnsureAll(r1.value, rest, flags);
        AskedTwice(w, r1.value, r, {n}, NodeSet(rest), BitsOf(flags));
      } else {
        AskedEmpty(w, n, NodeSet(ns), BitsOf(flags));
        assert r == None;
      }
    }
  }

  // ---------- One operation ----------

  /** The tables on the path of an operation: none unless it maps. */
  function Path(op: Op): set<Node> {
    if op.Map? then
      var v := PageOf(op.vaddr);
      {NodeAt(op.root, v, 3), NodeAt(op.root, v, 2), NodeAt(op.root, v, 1)}
    else {}
  }

  function Leaf(op: Op): Node
    requires op.Map?
  {
    NodeAt(op.root, PageOf(op.vaddr), 0)
  }

  /** A map operation that its caller may issue. */
  predicate Legal(w: World, op: Op) {
    op.Map? && IsRoot(w, op.root) && FlagsOk(op.flags)
  }

  /** What one map does: it adds the missing tables of its path and writes its leaf. */
  ghost predicate Mapped1(w: World, w': World, op: Op)
    requires op.Map? && op.flags < 4096
  {
    exists w1 :: Grown(w, w1, Path(op), BitsOf(op.flags)) && w' == SetLeaf(w1, Leaf(op), MakeEntry(op.paddr, op.flags))
  }

  /** A map succeeds exactly when the pool has a frame for each missing table of its path. */
  lemma MapStep(w: World, op: Op)
    requires Legal(w, op) && FreeNotHeld(w)
    ensures Step(w, op).Some? <==> Missing(Path(op), w.ent.Keys) <= |w.free|
    ensures Step(w, op).Some? ==> Mapped1(w, Step(w, op).value, op)
  {
    hide Missing, MakeEntry, Added, PageOf, NodeAt, MapPath, EnsureAll, BitsOf;
    var v := PageOf(op.vaddr);
    var ns := [NodeAt(op.root, v, 3), NodeAt(op.root, v, 2), NodeAt(op.root, v, 1)];
    MapPathIsEnsure(w, ns[0], ns[1], ns[2], Leaf(op), op.paddr, op.flags);
    EnsureAllGrows(w, ns, op.flags);
    assert NodeSet(ns) == Path(op);
  }

  lemma MapPathIsEnsure(w: World, n3: Node, n2: Node, n1: Node, leaf: Node, paddr: nat, flags: nat)
    requires flags < 4096
    ensures var r := EnsureAll(w, [n3, n2, n1], flags);
      MapPath(w, n3, n2, n1, leaf, paddr, flags)
      == (if r.Some? then Some(SetLeaf(r.value, leaf, MakeEntry(paddr, flags))) else None)
  {
    assert [n3, n2, n1][1..] == [n2, n1] && [n2, n1][1..] == [n1] && [n1][1..] == [];
    var r3 := EnsureTable(w, n3, flags);
    if r3.Some? {
      assert EnsureAll(w, [n3, n2, n1], flags) == EnsureAll(r3.value, [n2, n1], flags);
      var r2 := EnsureTable(r3.value, n2, flags);
      if r2.Some? {
        assert EnsureAll(r3.value, [n2, n1], flags) == EnsureAll(r2.value, [n1], flags);
        assert forall w1 :: EnsureAll(w1, [], flags) == Some(w1);
      }
    }
  }

  lemma PathHasTables(op: Op)
    ensures forall n :: n in Path(op) ==> 1 <= n.level <= 3
    ensures op.Map? ==> Leaf(op).level == 0
  {
  }

  // ---------- Runs of maps: success and cost ----------

  function PathAll(ops: seq<Op>): set<Node> {
    if ops == [] then {} else PathAll(ops[..|ops| - 1]) + Path(ops[|ops| - 1])
  }

  ghost predicate AllLegal(w: World, ops: seq<Op>) {
    forall i :: 0 <= i < |ops| ==> Legal(w, ops[i])
  }

  /** The tables, apart from roots, that a world has. */
  function TableNodes(w: World): set<Node> {
    set n | n in w.ent && n.level >= 1
  }

  /** The number of frames a run of maps takes: its paths' tables that are not there yet. */
  function Cost(w: World, ops: seq<Op>): nat {
    |PathAll(ops) - TableNodes(w)|
  }

  lemma TablesMissing(w: World, P: set<Node>)
    requires forall n :: n in P ==> n.level >= 1
    ensures P - w.ent.Keys == P - TableNodes(w)
  {
  }

  /** The step from w to w' added exactly the tables P and paid for the missing ones. */
  ghost predicate AddsTables(w: World, w': World, P: set<Node>) {
    TableNodes(w') == TableNodes(w) + P && Paid(w, w', |P - TableNodes(w)|)
  }

  lemma MapAdds(w: World, op: Op)
    requires Legal(w, op) && FreeNotHeld(w)
    ensures Step(w, op).Some? <==> |Path(op) - TableNodes(w)| <= |w.free|
    ensures Step(w, op).Some? ==> AddsTables(w, Step(w, op).value, Path(op))
  {
    MapStep(w, op);
    PathHasTables(op);
    TablesMissing(w, Path(op));
    if Step(w, op).Some? {
      MappedAdds(w, Step(w, op).value, op, Path(op), Leaf(op));
    }
  }

  lemma MappedAdds(w: World, w': World, op: Op, P: set<Node>, leaf: Node)
    requires op.Map? && op.flags < 4096 && Mapped1(w, w', op) && P == Path(op) && leaf == Leaf(op)
    requires leaf.level == 0 && forall n :: n in P ==> n.level >= 1
    ensures AddsTables(w, w', P)
  {
    var w1 :| Grown(w, w1, P, BitsOf(op.flags)) && w' == SetLeaf(w1, leaf, MakeEntry(op.paddr, op.flags));
    TablesMissing(w, P);
    GrownTables(w, w1, P, BitsOf(op.flags));
    LeafNoTable(w1, leaf, MakeEntry(op.paddr, op.flags));
  }

  lemma GrownTables(w: World, w1: World, P: set<Node>, bits: nat)
    requires Grown(w, w1, P, bits) && forall n :: n in P ==> n.level >= 1
    ensures TableNodes(w1) == TableNodes(w) + P
  {
  }

  lemma LeafNoTable(w: World, leaf: Node, e: Word)
    requires leaf.level == 0
    ensures TableNodes(SetLeaf(w, leaf, e)) == TableNodes(w)
  {
  }

  lemma AddedTwice<N>(K: set<N>, K1: set<N>, K2: set<N>, T: set<N>, P: set<N>)
    requires K1 == K + T && K2 == K1 + P
    ensures K2 == K + (T + P) && |(T + P) - K| == |T - K| + |P - K1|
  {
    MissingTwice(K, T, P);
  }

  lemma AddsTwice(w: World, w1: World, w2: World, T: set<Node>, P: set<Node>)
    requires AddsTables(w, w1, T) && AddsTables(w1, w2, P)
    ensures AddsTables(w, w2, T + P)
  {
    hide TableNodes, Paid;
    AddedTwice(TableNodes(w), TableNodes(w1), TableNodes(w2), T, P);
    PaidTwice(w, w1, w2, |T - TableNodes(w)|, |P - TableNodes(w1)|);
  }

  lemma PaidTwice(w: World, w1: World, w2: World, c1: nat, c2: nat)
    requires Paid(w, w1, c1) && Paid(w1, w2, c2)
    ensures Paid(w, w2, c1 + c2)
  {
    assert w.free[c1..][c2..] == w.free[c1 + c2..];
  }

  /** A run of maps, over any roots, succeeds exactly when the free list has a frame for each table
      that its paths lack; it takes exactly these frames, in list order, and adds exactly these tables. */
  lemma {:induction false} RunCost(usable: set<nat>, size: nat, w: World, ops: seq<Op>)
    requires WorldOk(usable, size, w) && AllLegal(w, ops)
    ensures Run(w, ops).Some? <==> Cost(w, ops) <= |w.free|
    ensures Run(w, ops).Some? ==> AddsTables(w, Run(w, ops).value, PathAll(ops))
  {
    if ops == [] {
      assert PathAll(ops) - TableNodes(w) == {};
    } else {
      var init, op := ops[..|ops| - 1], ops[|ops| - 1];
      RunCost(usable, size, w, init);
      MissingTwice(TableNodes(w), PathAll(init), Path(op));
      if Run(w, init).Some? {
        var w1 := Run(w, init).value;
        RunKeeps(usable, size, w, init);
        assert Legal(w, op) && Legal(w1, op) && FreeNotHeld(w1);
        MapAdds(w1, op);
        if Step(w1, op).Some? {
          AddsTwice(w, w1, Step(w1, op).value, PathAll(init), Path(op));
        }
      }
    }
  }

  // ---------- Runs of all operations: success and cost ----------

  /** The caller's obligations for one operation: it releases only what was handed out and maps only
      into a root, with flags it may use. */
  predicate Permitted(w: World, op: Op) {
    match op
    case Get => true
    case NewRoot => true
    case Release(f) => f in w.held
    case Map(_, _, _, _) => Legal(w, op)
  }

  /** The obligations are kept wherever the run gets. */
  ghost predicate AllPermitted(w: World, ops: seq<Op>) {
    forall k: nat :: k < |ops| && Run(w, ops[..k]).Some? ==> Permitted(Run(w, ops[..k]).value, ops[k])
  }

  /** Frames that gets and new roots take, less those that releases give back. */
  function Balance(ops: seq<Op>): int {
    if ops == [] then 0
    else
      var op := ops[|ops| - 1];
      Balance(ops[..|ops| - 1]) + (if op.Map? then 0 else if op.Release? then -1 else 1)
  }

  /** The frames that a run has taken on the whole: those and one for each table its maps add. */
  function Need(w: World, ops: seq<Op>): int {
    Balance(ops) + |PathAll(ops) - TableNodes(w)|
  }

  /** w' is w with the tables P added and c frames fewer on the list. */
  ghost predicate Balanced(w: World, w': World, P: set<Node>, c: int) {
    TableNodes(w') == TableNodes(w) + P && |w'.free| == |w.free| - c
  }

  lemma StepBalance(w: World, op: Op)
    requires FreeNotHeld(w) && Permitted(w, op)
    ensures Step(w, op).Some? <==> Need(w, [op]) <= |w.free|
    ensures Step(w, op).Some? ==> Balanced(w, Step(w, op).value, Path(op), Need(w, [op]))
  {
    PathAllOne(op);
    assert [op][..0] == [] && Balance([op][..0]) == 0;
    if op.Map? {
      MapAdds(w, op);
    } else {
      assert Path(op) - TableNodes(w) == {};
    }
  }

  lemma NeedSnoc(w: World, w1: World, init: seq<Op>, op: Op)
    requires TableNodes(w1) == TableNodes(w) + PathAll(init)
    ensures Need(w, init + [op]) == Need(w, init) + Need(w1, [op])
  {
    hide Path, TableNodes;
    var ops := init + [op];
    assert ops[..|ops| - 1] == init && [op][..0] == [];
    assert Balance(ops) == Balance(init) + Balance([op]);
    PathAllOne(op);
    MissingTwice(TableNodes(w), PathAll(init), Path(op));
  }

  /** At each point of the run the free list has the frames needed so far. */
  ghost predicate Fits(w: World, ops: seq<Op>) {
    forall k: nat :: k <= |ops| ==> Need(w, ops[..k]) <= |w.free|
  }

  lemma FitsSnoc(w: World, init: seq<Op>, op: Op)
    ensures Fits(w, init + [op]) <==> Fits(w, init) && Need(w, init + [op]) <= |w.free|
  {
    hide Need;
    var ops := init + [op];
    assert ops[..|ops|] == ops;
    forall k: nat | k <= |init| ensures init[..k] == ops[..k] {
    }
    if Fits(w, ops) {
      assert Need(w, ops[..|ops|]) <= |w.free|;
      forall k: nat | k <= |init| ensures Need(w, init[..k]) <= |w.free| {
        assert Need(w, ops[..k]) <= |w.free|;
      }
    }
  }

  lemma PermittedSnoc(w: World, init: seq<Op>, op: Op)
    requires AllPermitted(w, init + [op])
    ensures AllPermitted(w, init) && (Run(w, init).Some? ==> Permitted(Run(w, init).value, op))
  {
    hide Run, Permitted;
    var ops := init + [op];
    assert ops[..|init|] == init;
    forall k: nat | k < |init| && Run(w, init[..k]).Some? ensures Permitted(Run(w, init[..k]).value, init[k]) {
      assert init[..k] == ops[..k];
    }
  }

  /** Any run of gets, new roots, releases and maps succeeds exactly when the free list has, at each
      point, the frames needed so far; it then holds exactly that many fewer, and the tables of all
      the maps' paths are there. */
  lemma {:induction false} RunBalance(usable: set<nat>, size: nat, w: World, ops: seq<Op>)
    requires WorldOk(usable, size, w) && AllPermitted(w, ops)
    ensures Run(w, ops).Some? <==> Fits(w, ops)
    ensures Run(w, ops).Some? ==> Balanced(w, Run(w, ops).value, PathAll(ops), Need(w, ops))
  {
    hide Need, Step, WorldOk, TableNodes, Run, AllPermitted, Permitted, PathAll;
    if ops == [] {
      NeedNothing(w, ops);
    } else {
      var init, op := ops[..|ops| - 1], ops[|ops| - 1];
      assert ops == init + [op];
      hide Fits;
      PermittedSnoc(w, init, op);
      FitsSnoc(w, init, op);
      RunSnoc(w, init, op);
      RunBalance(usable, size, w, init);
      if Run(w, init).Some? {
        var w1 := Run(w, init).value;
        RunKeeps(usable, size, w, init);
        ListApart(usable, size, w1);
        StepBalance(w1, op);
        NeedSnoc(w, w1, init, op);
        PathAllSnoc(init, op);
      }
    }
  }

  /** A run that succeeds kept its obligations. */
  lemma RunPermitted(w: World, ops: seq<Op>)
    requires Run(w, ops).Some?
    ensures AllPermitted(w, ops)
  {
    hide Run, Step;
    forall k: nat | k < |ops| && Run(w, ops[..k]).Some? ensures Permitted(Run(w, ops[..k]).value, ops[k]) {
      assert ops[..k + 1] == ops[..k] + [ops[k]];
      RunPrefix(w, ops, k + 1);
      RunSnoc(w, ops[..k], ops[k]);
      StepPermitted(Run(w, ops[..k]).value, ops[k]);
    }
  }

  lemma StepPermitted(w: World, op: Op)
    requires Step(w, op).Some?
    ensures Permitted(w, op)
  {
  }

  lemma PathAllSnoc(init: seq<Op>, op: Op)
    ensures PathAll(init + [op]) == PathAll(init) + Path(op)
  {
    assert (init + [op])[..|init|] == init;
  }

  lemma NeedNothing(w: World, ops: seq<Op>)
    requires ops == []
    ensures Run(w, ops) == Some(w) && Fits(w, ops) && Need(w, ops) == 0 && TableNodes(w) == TableNodes(w) + PathAll(ops)
  {
    assert ops[..0] == ops;
    assert {} - TableNodes(w) == {};
  }

  lemma ListApart(usable: set<nat>, size: nat, w: World)
    requires WorldOk(usable, size, w)
    ensures FreeNotHeld(w)
  {
  }

  // ---------- The tables that operations touch ----------

  lemma {:induction false} PathAllRooted(ops: seq<Op>, root: nat)
    requires forall op :: op in ops ==> op.Map? && op.root == root
    ensures forall t :: t in PathAll(ops) ==> t.root == root
  {
    if ops != [] {
      PathAllRooted(ops[..|ops| - 1], root);
    }
  }

  lemma PathAllOne(op: Op)
    ensures PathAll([op]) == Path(op)
  {
    assert [op][..0] == [];
  }

  lemma {:induction false} PathAllConcat(a: seq<Op>, b: seq<Op>)
    ensures PathAll(a + b) == PathAll(a) + PathAll(b)
  {
    if b == [] {
      assert a + b == a;
    } else {
      hide Path;
      var init := b[..|b| - 1];
      PathAllConcat(a, init);
      assert (a + b)[..|a + b| - 1] == a + init;
    }
  }
}

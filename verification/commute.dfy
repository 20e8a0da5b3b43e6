/** What exchanging two maps changes. */
module Commute {
  import opened Structures
  import opened Wrappers
  import opened Worlds
  import opened PhysicalMemory
  import opened Runs
  import opened History

  /** Two worlds map the same pages to the same places, with tables in the same places of the trees
      and with the same flags; the frames that hold the tables may differ. */
  ghost predicate SameView(w1: World, w2: World) {
    && (forall n :: n in w1.ent <==> n in w2.ent)
    && (forall n :: n in w1.ent ==> SameEntry(w1, w2, n))
  }

  predicate SameEntry(w1: World, w2: World, n: Node) {
    n in w1.ent && n in w2.ent && (if n.level == 0 then w1.ent[n] == w2.ent[n] else Bits(w1.ent[n]) == Bits(w2.ent[n]))
  }

  lemma SameRights(e1: Word, e2: Word)
    requires Bits(e1) == Bits(e2)
    ensures Writeable(e1) == Writeable(e2) && UserMode(e1) == UserMode(e2)
  {
    FlagFields(e1, e1 / 4096, e1 % 4096);
    FlagFields(e2, e2 / 4096, e2 % 4096);
  }

  /** Equal views translate every address alike, with the same rights. */
  lemma SameViewTranslates(w1: World, w2: World, root: nat, vaddr: Word)
    requires Shaped(w1) && Shaped(w2) && SameView(w1, w2)
    ensures Translate(w1, root, vaddr) == Translate(w2, root, vaddr)
  {
    hide Shaped, PageOf, NodeAt, Writeable, UserMode, PsePtr, Bits;
    var v := PageOf(vaddr);
    if NodeAt(root, v, 0) in w1.ent {
      MappedPath(w1, root, v);
      forall level: nat | level <= 3
        ensures NodeAt(root, v, level) in w1.ent && NodeAt(root, v, level) in w2.ent
        ensures Writeable(w1.ent[NodeAt(root, v, level)]) == Writeable(w2.ent[NodeAt(root, v, level)])
        ensures UserMode(w1.ent[NodeAt(root, v, level)]) == UserMode(w2.ent[NodeAt(root, v, level)])
      {
        var n := NodeAt(root, v, level);
        assert SameEntry(w1, w2, n);
        if n.level != 0 {
          SameRights(w1.ent[n], w2.ent[n]);
        }
      }
      LeafLevel(root, v);
    }
  }

  lemma LeafLevel(root: nat, v: nat)
    ensures NodeAt(root, v, 0).level == 0
  {
  }

  /** The entry under a node after mapping a and then b. */
  ghost predicate AfterBoth(w: World, w2: World, a: Op, b: Op, n: Node) {
    && (n in w2.ent <==> n in w.ent || Touches(a, n) || Touches(b, n))
    && (n in w2.ent ==>
      if n.level == 0 then
        w2.ent[n] == (if Touches(b, n) && b.flags < 4096 then MakeEntry(b.paddr, b.flags)
                      else if Touches(a, n) && a.flags < 4096 then MakeEntry(a.paddr, a.flags)
                      else if n in w.ent then w.ent[n] else 0)
      else if n in w.ent then w2.ent[n] == w.ent[n]
      else Bits(w2.ent[n]) == (if Touches(a, n) then BitsOf(a.flags) else BitsOf(b.flags)))
  }

  lemma BothSteps(usable: set<nat>, size: nat, w: World, a: Op, b: Op, n: Node)
    requires WorldOk(usable, size, w) && Run(w, [a, b]).Some?
    ensures AfterBoth(w, Run(w, [a, b]).value, a, b, n)
  {
    hide Step, WorldOk, Touches, MakeEntry, Bits;
    RunTwo(w, a, b);
    var w1 := Step(w, a).value;
    StepKeeps(usable, size, w, a);
    FreeApart(usable, size, w);
    FreeApart(usable, size, w1);
    StepEntry(w, a, n);
    StepEntry(w1, b, n);
  }

  lemma RunTwo(w: World, a: Op, b: Op)
    ensures Run(w, [a, b]) == (if Step(w, a).Some? then Step(Step(w, a).value, b) else None)
  {
    hide Step;
    assert [a, b] == [a] + [b] && [a] == [] + [a];
    RunSnoc(w, [a], b);
    RunSnoc(w, [], a);
  }

  /** Some table that both maps need is missing. */
  ghost predicate SharedFresh(w: World, a: Op, b: Op) {
    exists n :: n in Path(a) && n in Path(b) && n !in w.ent
  }

  /** Two maps of different pages can be exchanged: either order succeeds exactly when the other
      does, takes the same frames off the list, and gives the same view exactly when both have the
      same flags or neither creates a table that the other needs too. */
  lemma MapsCommute(usable: set<nat>, size: nat, w: World, a: Op, b: Op)
    requires WorldOk(usable, size, w) && Legal(w, a) && Legal(w, b) && Leaf(a) != Leaf(b)
    ensures Run(w, [a, b]).Some? <==> Run(w, [b, a]).Some?
    ensures Run(w, [a, b]).Some? ==>
      Run(w, [a, b]).value.free == Run(w, [b, a]).value.free
    ensures Run(w, [a, b]).Some? ==>
      (SameView(Run(w, [a, b]).value, Run(w, [b, a]).value)
       <==> BitsOf(a.flags) == BitsOf(b.flags) || !SharedFresh(w, a, b))
  {
    hide Run, WorldOk, Path, TableNodes;
    RunCost(usable, size, w, [a, b]);
    RunCost(usable, size, w, [b, a]);
    PathOfTwo(a, b);
    PathOfTwo(b, a);
    assert Path(a) + Path(b) == Path(b) + Path(a);
    if Run(w, [a, b]).Some? {
      var wab, wba := Run(w, [a, b]).value, Run(w, [b, a]).value;
      forall n ensures AfterBoth(w, wab, a, b, n) && AfterBoth(w, wba, b, a, n)
        ensures n in Path(a) <==> Touches(a, n) && n.level >= 1
        ensures n in Path(b) <==> Touches(b, n) && n.level >= 1
        ensures n.level == 0 ==> !(Touches(a, n) && Touches(b, n)) {
        BothSteps(usable, size, w, a, b, n);
        BothSteps(usable, size, w, b, a, n);
        TouchesPath(a, n);
        TouchesPath(b, n);
      }
      OrdersDiffer(w, wab, wba, a, b);
    }
  }

  lemma PathOfTwo(a: Op, b: Op)
    ensures PathAll([a, b]) == Path(a) + Path(b)
  {
    PathAllConcat([a], [b]);
    PathAllOne(a);
    PathAllOne(b);
    assert [a, b] == [a] + [b];
  }

  lemma OrdersDiffer(w: World, wab: World, wba: World, a: Op, b: Op)
    requires a.Map? && b.Map? && a.flags < 4096 && b.flags < 4096
    requires forall n :: AfterBoth(w, wab, a, b, n) && AfterBoth(w, wba, b, a, n)
    requires forall n :: (n in Path(a) <==> Touches(a, n) && n.level >= 1) && (n in Path(b) <==> Touches(b, n) && n.level >= 1)
    requires forall n: Node :: n.level == 0 ==> !(Touches(a, n) && Touches(b, n))
    ensures SameView(wab, wba) <==> BitsOf(a.flags) == BitsOf(b.flags) || !SharedFresh(w, a, b)
  {
    hide Path, MakeEntry, Bits, BitsOf;
    forall n ensures n in wab.ent <==> n in wba.ent {
      assert AfterBoth(w, wab, a, b, n) && AfterBoth(w, wba, b, a, n);
    }
    if BitsOf(a.flags) == BitsOf(b.flags) || !SharedFresh(w, a, b) {
      forall n | n in wab.ent ensures SameEntry(wab, wba, n) {
        assert AfterBoth(w, wab, a, b, n) && AfterBoth(w, wba, b, a, n);
        assert Touches(a, n) ==> 0 <= n.level;
        assert Touches(b, n) ==> 0 <= n.level;
      }
    } else {
      var n :| n in Path(a) && n in Path(b) && n !in w.ent;
      assert AfterBoth(w, wab, a, b, n) && AfterBoth(w, wba, b, a, n);
      assert !SameEntry(wab, wba, n);
    }
  }

  // ---------- What the processor can tell apart ----------

  /** Some table on both paths is there already and denies the right. */
  ghost predicate Denied(w: World, a: Op, b: Op, r: Right) {
    exists n :: n in Path(a) && n in Path(b) && n in w.ent && !Grants(w.ent[n], r)
  }

  /** Exchanging a and b can be seen in this right: the maps differ in it and nothing above the
      table they share takes it away anyway. */
  ghost predicate Visible(w: World, a: Op, b: Op, r: Right) {
    a.Map? && b.Map? && SharedFresh(w, a, b) && Grants(a.flags, r) != Grants(b.flags, r) && !Denied(w, a, b, r)
  }

  lemma GrantsOfBits(e: Word, flags: nat, r: Right)
    requires Bits(e) == BitsOf(flags)
    ensures Grants(e, r) == Grants(flags, r)
  {
    RightsOfBits(e, flags);
  }

  lemma GrantsOfEntry(paddr: nat, flags: nat, r: Right)
    requires flags < 4096
    ensures Grants(MakeEntry(paddr, flags), r) == Grants(flags, r)
  {
    EntryFields(paddr, flags);
  }

  /** Above a missing table of a path that another path shares, the paths are one. */
  lemma SharedAbove(w: World, a: Op, b: Op, s: Node, n: Node)
    requires Shaped(w) && a.Map? && b.Map?
    requires s in Path(a) && s in Path(b) && s !in w.ent && n in Path(a) && n in w.ent
    ensures n in Path(b) && n.level > s.level
  {
    TouchesPath(a, s);
    TouchesPath(b, s);
    TouchesPath(a, n);
    var v, u := PageOf(a.vaddr), PageOf(b.vaddr);
    if n.level <= s.level {
      EntryAbove(w, a.root, v, n.level, s.level);
    }
    SameAbove(a.root, v, u, s.level, n.level);
    TouchesPath(b, n);
  }

  lemma {:induction false} EntryAbove(w: World, root: nat, v: nat, low: nat, high: nat)
    requires Shaped(w) && low <= high <= 3 && NodeAt(root, v, low) in w.ent
    ensures NodeAt(root, v, high) in w.ent
    decreases high - low
  {
    if low < high {
      ParentInside(w, root, v, low);
      EntryAbove(w, root, v, low + 1, high);
    }
  }

  lemma {:induction false} SameAbove(root: nat, v: nat, u: nat, low: nat, high: nat)
    requires low <= high <= 3 && NodeAt(root, v, low) == NodeAt(root, u, low)
    ensures NodeAt(root, v, high) == NodeAt(root, u, high)
    decreases high - low
  {
    if low < high {
      UpStep(v, low);
      UpStep(u, low);
      SameAbove(root, v, u, low + 1, high);
    }
  }

  /** The entry under one node after either order. */
  ghost predicate EitherOrder(w: World, wab: World, wba: World, a: Op, b: Op, n: Node) {
    AfterBoth(w, wab, a, b, n) && AfterBoth(w, wba, b, a, n)
  }

  lemma EitherSteps(usable: set<nat>, size: nat, w: World, a: Op, b: Op, n: Node)
    requires WorldOk(usable, size, w) && Run(w, [a, b]).Some? && Run(w, [b, a]).Some?
    ensures EitherOrder(w, Run(w, [a, b]).value, Run(w, [b, a]).value, a, b, n)
  {
    BothSteps(usable, size, w, a, b, n);
    BothSteps(usable, size, w, b, a, n);
  }

  /** A node is in both worlds, a table that was there is as it was, and the orders differ in a right
      only at a missing table that both maps need. */
  ghost predicate PathNode(w: World, wab: World, wba: World, a: Op, b: Op, n: Node, r: Right)
    requires a.Map? && b.Map?
  {
    && n in wab.ent && n in wba.ent
    && (n in w.ent && n.level >= 1 ==> wab.ent[n] == w.ent[n] == wba.ent[n])
    && (Grants(wab.ent[n], r) != Grants(wba.ent[n], r) ==>
        n.level >= 1 && n !in w.ent && n in Path(a) && n in Path(b) && Grants(a.flags, r) != Grants(b.flags, r))
  }

  lemma NodeAgrees(w: World, wab: World, wba: World, a: Op, b: Op, n: Node, r: Right)
    requires EitherOrder(w, wab, wba, a, b, n) && Legal(w, a) && Legal(w, b) && Leaf(a) != Leaf(b)
    requires 0 <= n.level <= 3 && n in wab.ent
    ensures PathNode(w, wab, wba, a, b, n, r)
    ensures n.level == 0 ==> wab.ent[n] == wba.ent[n]
  {
    hide MakeEntry, Bits, BitsOf, Grants, PageOf, Path;
    TouchesPath(a, n);
    TouchesPath(b, n);
    if n.level >= 1 && n !in w.ent {
      var fab, fba := if Touches(a, n) then a.flags else b.flags, if Touches(b, n) then b.flags else a.flags;
      GrantsOfBits(wab.ent[n], fab, r);
      GrantsOfBits(wba.ent[n], fba, r);
    }
  }

  /** A table that denies the right to both maps is on the path of every page below the table that
      they share and that is missing. */
  lemma DenierAbove(w: World, a: Op, b: Op, root: nat, v: nat, level: nat, r: Right) returns (high: nat)
    requires Shaped(w) && a.Map? && b.Map? && level <= 3 && Denied(w, a, b, r)
    requires var s := NodeAt(root, v, level); s in Path(a) && s in Path(b) && s !in w.ent
    ensures 1 <= high <= 3 && NodeAt(root, v, high) in w.ent && !Grants(w.ent[NodeAt(root, v, high)], r)
  {
    var s := NodeAt(root, v, level);
    var d :| d in Path(a) && d in Path(b) && d in w.ent && !Grants(w.ent[d], r);
    SharedAbove(w, a, b, s, d);
    TouchesPath(a, s);
    TouchesPath(a, d);
    high := d.level;
    SameAbove(root, v, PageOf(a.vaddr), level, high);
  }

  predicate PathGrants(w: World, root: nat, v: nat, r: Right) {
    forall l: nat :: l <= 3 ==> NodeAt(root, v, l) in w.ent && Grants(w.ent[NodeAt(root, v, l)], r)
  }

  lemma PathHasAll(w: World, root: nat, v: nat, r: Right)
    ensures PathHas(w, root, v, r) == PathGrants(w, root, v, r)
  {
    hide NodeAt, Grants;
  }

  /** A right that is not visibly exchanged is the same on every page. */
  lemma RightAgrees(w: World, wab: World, wba: World, a: Op, b: Op, root: nat, v: nat, r: Right)
    requires Shaped(w) && Shaped(wab) && Legal(w, a) && Legal(w, b) && Leaf(a) != Leaf(b)
    requires forall n :: EitherOrder(w, wab, wba, a, b, n)
    requires NodeAt(root, v, 0) in wab.ent && !Visible(w, a, b, r)
    ensures PathHas(wab, root, v, r) == PathHas(wba, root, v, r)
  {
    hide Shaped, EitherOrder, Leaf, Path, Grants, Denied, NodeAt, PathHas;
    MappedPath(wab, root, v);
    PathHasAll(wab, root, v, r);
    PathHasAll(wba, root, v, r);
    forall l: nat | l <= 3 ensures PathNode(w, wab, wba, a, b, NodeAt(root, v, l), r) {
      NodeLevel(root, v, l);
      NodeAgrees(w, wab, wba, a, b, NodeAt(root, v, l), r);
    }
    if l: nat :| l <= 3 && Grants(wab.ent[NodeAt(root, v, l)], r) != Grants(wba.ent[NodeAt(root, v, l)], r) {
      assert PathNode(w, wab, wba, a, b, NodeAt(root, v, l), r);
      var high := DenierAbove(w, a, b, root, v, l, r);
      assert PathNode(w, wab, wba, a, b, NodeAt(root, v, high), r);
      NodeLevel(root, v, high);
    }
  }

  lemma NodeLevel(root: nat, v: nat, l: nat)
    ensures NodeAt(root, v, l).level == l
  {
  }

  /** A visible exchange shows on the page of the map that grants the right: it has it when its map
      comes first and lacks it when the other one does. */
  lemma RightDiffers(w: World, wab: World, wba: World, a: Op, b: Op, r: Right)
    requires Shaped(w) && Shaped(wab) && Legal(w, a) && Legal(w, b) && Leaf(a) != Leaf(b)
    requires forall n :: EitherOrder(w, wab, wba, a, b, n)
    requires Visible(w, a, b, r) && Grants(a.flags, r)
    ensures Leaf(a) in wab.ent
    ensures PathHas(wab, a.root, PageOf(a.vaddr), r) && !PathHas(wba, a.root, PageOf(a.vaddr), r)
  {
    hide Shaped, Path, Grants, MakeEntry, Bits, BitsOf, PathHas, PageOf;
    var root, v := a.root, PageOf(a.vaddr);
    var s :| s in Path(a) && s in Path(b) && s !in w.ent;
    PathHasAll(wab, root, v, r);
    PathHasAll(wba, root, v, r);
    forall l: nat | l <= 3 ensures NodeAt(root, v, l) in wab.ent && Grants(wab.ent[NodeAt(root, v, l)], r) {
      GrantedFirst(w, wab, wba, a, b, s, NodeAt(root, v, l), r);
    }
    TouchesPath(a, s);
    TouchesPath(b, s);
    assert EitherOrder(w, wab, wba, a, b, s);
    GrantsOfBits(wba.ent[s], b.flags, r);
    assert s == NodeAt(root, v, s.level);
  }

  lemma GrantedFirst(w: World, wab: World, wba: World, a: Op, b: Op, s: Node, n: Node, r: Right)
    requires Shaped(w) && Legal(w, a) && Legal(w, b) && Leaf(a) != Leaf(b)
    requires EitherOrder(w, wab, wba, a, b, n)
    requires !Denied(w, a, b, r) && Grants(a.flags, r)
    requires s in Path(a) && s in Path(b) && s !in w.ent && Touches(a, n)
    ensures n in wab.ent && Grants(wab.ent[n], r)
  {
    hide Shaped, Path, Grants, MakeEntry, Bits, BitsOf, PageOf;
    TouchesPath(a, n);
    TouchesPath(b, n);
    if n.level == 0 {
      GrantsOfEntry(a.paddr, a.flags, r);
    } else if n in w.ent {
      SharedAbove(w, a, b, s, n);
    } else {
      GrantsOfBits(wab.ent[n], a.flags, r);
    }
  }

  lemma SameTranslation(w: World, wab: World, wba: World, a: Op, b: Op, root: nat, vaddr: Word)
    requires Shaped(w) && Shaped(wab) && Legal(w, a) && Legal(w, b) && Leaf(a) != Leaf(b)
    requires forall n :: EitherOrder(w, wab, wba, a, b, n)
    requires !Visible(w, a, b, Write) && !Visible(w, a, b, User)
    ensures Translate(wab, root, vaddr) == Translate(wba, root, vaddr)
  {
    hide Shaped, Visible, PathHas, PageOf, PsePtr, Leaf;
    var v := PageOf(vaddr);
    var leaf := NodeAt(root, v, 0);
    NodeLevel(root, v, 0);
    assert EitherOrder(w, wab, wba, a, b, leaf);
    if leaf in wab.ent {
      NodeAgrees(w, wab, wba, a, b, leaf, Write);
      RightAgrees(w, wab, wba, a, b, root, v, Write);
      RightAgrees(w, wab, wba, a, b, root, v, User);
    }
  }

  /** A visible exchange changes a translation. */
  lemma OtherTranslation(w: World, wab: World, wba: World, a: Op, b: Op, r: Right)
    requires Shaped(w) && Shaped(wab) && Shaped(wba) && Legal(w, a) && Legal(w, b) && Leaf(a) != Leaf(b)
    requires forall n :: EitherOrder(w, wab, wba, a, b, n)
    requires Visible(w, a, b, r)
    ensures exists root: nat, vaddr: Word :: Translate(wab, root, vaddr) != Translate(wba, root, vaddr)
  {
    hide Shaped, PathHas, PageOf, PsePtr, Path;
    if Grants(a.flags, r) {
      RightDiffers(w, wab, wba, a, b, r);
      assert Translate(wab, a.root, a.vaddr) != Translate(wba, a.root, a.vaddr);
    } else {
      forall n ensures EitherOrder(w, wba, wab, b, a, n) {
        assert EitherOrder(w, wab, wba, a, b, n);
      }
      VisibleSwaps(w, a, b, r);
      RightDiffers(w, wba, wab, b, a, r);
      assert Translate(wab, b.root, b.vaddr) != Translate(wba, b.root, b.vaddr);
    }
  }

  lemma VisibleSwaps(w: World, a: Op, b: Op, r: Right)
    requires Visible(w, a, b, r)
    ensures Visible(w, b, a, r)
  {
    hide Path, Grants;
    var s :| s in Path(a) && s in Path(b) && s !in w.ent;
    assert s in Path(b) && s in Path(a) && s !in w.ent;
  }

  /** What the processor can tell: the two orders of two maps of different pages translate every
      address of every space alike, with the same rights, exactly when no table that both need is
      missing, or for the write and the user right alike the maps agree in it or a table that both
      use already denies it. */
  lemma OrderUnseen(usable: set<nat>, size: nat, w: World, a: Op, b: Op)
    requires WorldOk(usable, size, w) && Legal(w, a) && Legal(w, b) && Leaf(a) != Leaf(b)
    requires Run(w, [a, b]).Some?
    ensures Run(w, [b, a]).Some?
    ensures (forall root: nat, vaddr: Word ::
               Translate(Run(w, [a, b]).value, root, vaddr) == Translate(Run(w, [b, a]).value, root, vaddr))
      <==> !SharedFresh(w, a, b)
           || forall r :: Grants(a.flags, r) == Grants(b.flags, r) || Denied(w, a, b, r)
  {
    hide Run, WorldOk, Shaped, Legal, Leaf, EitherOrder, SharedFresh, Denied, Grants, Translate;
    assert a.Map? && b.Map? by {
      MapsOnly(w, a, b);
    }
    MapsCommute(usable, size, w, a, b);
    var wab, wba := Run(w, [a, b]).value, Run(w, [b, a]).value;
    RunKeeps(usable, size, w, [a, b]);
    RunKeeps(usable, size, w, [b, a]);
    FreeApart(usable, size, w);
    FreeApart(usable, size, wab);
    FreeApart(usable, size, wba);
    forall n ensures EitherOrder(w, wab, wba, a, b, n) {
      EitherSteps(usable, size, w, a, b, n);
    }
    forall r ensures Visible(w, a, b, r) <==>
      SharedFresh(w, a, b) && Grants(a.flags, r) != Grants(b.flags, r) && !Denied(w, a, b, r) {
    }
    if r :| Visible(w, a, b, r) {
      OtherTranslation(w, wab, wba, a, b, r);
    } else {
      forall root: nat, vaddr: Word ensures Translate(wab, root, vaddr) == Translate(wba, root, vaddr) {
        SameTranslation(w, wab, wba, a, b, root, vaddr);
      }
    }
  }

  lemma MapsOnly(w: World, a: Op, b: Op)
    requires Legal(w, a) && Legal(w, b)
    ensures a.Map? && b.Map?
  {
  }
}

/** kernel/arch/x64/mem.c: the pool of physical frames. */
module Mem {
  import opened Sets
  import opened Structures
  import opened Wrappers
  import opened Worlds
  import opened PhysicalMemory

  const LIMINE_MEMMAP_USABLE := 0
  const LIMINE_MEMMAP_KERNEL_AND_MODULES := 6

  datatype MemmapEntry = MemmapEntry(base: Word, length: Word, kind: Word)

  // ---------- What the boot loader's memory map offers ----------

  function FramesOf(e: MemmapEntry): seq<nat> {
    if e.kind == LIMINE_MEMMAP_USABLE then seq(e.length / 4096, k requires 0 <= k => e.base / 4096 + k) else []
  }

  /** The frames of the usable entries in the order the loops meet them. */
  function Discovered(entries: seq<MemmapEntry>): seq<nat> {
    if entries == [] then []
    else Discovered(entries[..|entries| - 1]) + FramesOf(entries[|entries| - 1])
  }

  function Reverse<T>(s: seq<T>): (r: seq<T>)
    ensures |r| == |s|
  {
    if s == [] then [] else [s[|s| - 1]] + Reverse(s[..|s| - 1])
  }

  function TotalFrames(entries: seq<MemmapEntry>): nat {
    if entries == [] then 0
    else
      var e := entries[|entries| - 1];
      TotalFrames(entries[..|entries| - 1]) + (if e.kind == LIMINE_MEMMAP_USABLE then e.length / 4096 else 0)
  }

  /** A usable entry: page-aligned, above frame 0, addressable and backed by `size` words. */
  predicate EntryWellFormed(e: MemmapEntry, size: nat) {
    e.kind == LIMINE_MEMMAP_USABLE ==>
      && e.base % 4096 == 0 && e.length % 4096 == 0 && e.base > 0
      && e.base + e.length <= 0x10_0000_0000_0000 && e.base + e.length <= 8 * size
  }

  predicate Apart(a: MemmapEntry, b: MemmapEntry) {
    a.kind == LIMINE_MEMMAP_USABLE && b.kind == LIMINE_MEMMAP_USABLE ==>
      a.base + a.length <= b.base || b.base + b.length <= a.base
  }

  predicate MemmapOk(entries: seq<MemmapEntry>, size: nat) {
    && (forall i :: 0 <= i < |entries| ==> EntryWellFormed(entries[i], size))
    && (forall i, j :: 0 <= i < j < |entries| ==> Apart(entries[i], entries[j]))
  }

  predicate InEntry(e: MemmapEntry, f: nat) {
    e.kind == LIMINE_MEMMAP_USABLE && e.base <= 4096 * f < e.base + e.length
  }

  ghost predicate InSomeEntry(entries: seq<MemmapEntry>, f: nat) {
    exists i :: 0 <= i < |entries| && InEntry(entries[i], f)
  }

  lemma FramesOfExact(e: MemmapEntry, size: nat, f: nat)
    requires EntryWellFormed(e, size)
    ensures f in FramesOf(e) <==> InEntry(e, f)
    ensures f in FramesOf(e) ==> FrameOk(f, size)
  {
    if InEntry(e, f) {
      assert FramesOf(e)[f - e.base / 4096] == f;
    }
  }

  lemma MemmapInit(entries: seq<MemmapEntry>, size: nat)
    requires MemmapOk(entries, size) && entries != []
    ensures MemmapOk(entries[..|entries| - 1], size)
    ensures EntryWellFormed(entries[|entries| - 1], size)
  {
    var init := entries[..|entries| - 1];
    forall i | 0 <= i < |init| ensures EntryWellFormed(init[i], size) {
      assert EntryWellFormed(entries[i], size);
    }
    forall i, j | 0 <= i < j < |init| ensures Apart(init[i], init[j]) {
      assert Apart(entries[i], entries[j]);
    }
  }

  /** The discovered frames are exactly the 4 KiB frames inside usable entries. */
  lemma {:induction false} DiscoveredMembers(entries: seq<MemmapEntry>, size: nat, f: nat)
    requires MemmapOk(entries, size)
    ensures f in Discovered(entries) <==> InSomeEntry(entries, f)
    ensures f in Discovered(entries) ==> FrameOk(f, size)
  {
    if entries != [] {
      var k := |entries| - 1;
      var init, e := entries[..k], entries[k];
      MemmapInit(entries, size);
      DiscoveredMembers(init, size, f);
      FramesOfExact(e, size, f);
      if InSomeEntry(init, f) {
        var i :| 0 <= i < |init| && InEntry(init[i], f);
        assert InEntry(entries[i], f);
      }
      if InSomeEntry(entries, f) {
        var i :| 0 <= i < |entries| && InEntry(entries[i], f);
        assert i < k ==> InEntry(init[i], f);
      }
    }
  }

  lemma JoinNoDuplicates(a: seq<nat>, b: seq<nat>)
    requires NoDuplicates(a) && NoDuplicates(b) && forall x :: x in a ==> x !in b
    ensures NoDuplicates(a + b)
  {
    var s := a + b;
    forall i, j | 0 <= i < j < |s| ensures s[i] != s[j] {
      if i < |a| <= j {
        assert a[i] in a && b[j - |a|] in b;
      }
    }
  }

  /** No frame is discovered twice, and there are as many as the lengths say. */
  lemma {:induction false} DiscoveredOnce(entries: seq<MemmapEntry>, size: nat)
    requires MemmapOk(entries, size)
    ensures NoDuplicates(Discovered(entries))
    ensures |Discovered(entries)| == TotalFrames(entries)
  {
    if entries != [] {
      var k := |entries| - 1;
      var init, e := entries[..k], entries[k];
      MemmapInit(entries, size);
      DiscoveredOnce(init, size);
      forall f: nat | f in Discovered(init) ensures f !in FramesOf(e) {
        DiscoveredMembers(init, size, f);
        var i :| 0 <= i < |init| && InEntry(init[i], f);
        assert Apart(entries[i], entries[k]);
        FramesOfExact(e, size, f);
      }
      JoinNoDuplicates(Discovered(init), FramesOf(e));
    }
  }

  lemma {:induction false} ReverseSame<T>(s: seq<T>)
    ensures forall i :: 0 <= i < |s| ==> Reverse(s)[i] == s[|s| - 1 - i]
    ensures forall x :: x in Reverse(s) <==> x in s
  {
    if s != [] {
      ReverseSame(s[..|s| - 1]);
      assert s == s[..|s| - 1] + [s[|s| - 1]];
    }
  }

  lemma ReverseSnoc<T>(s: seq<T>, x: T)
    ensures Reverse(s + [x]) == [x] + Reverse(s)
  {
    assert (s + [x])[..|s|] == s;
  }

  lemma ReverseNoDuplicates(s: seq<nat>)
    requires NoDuplicates(s)
    ensures NoDuplicates(Reverse(s)) && SetOf(Reverse(s)) == SetOf(s)
  {
    ReverseSame(s);
  }

  // ---------- The count that find_free_frames returns ----------

  /** An `unsigned long` returned as `int` and stored back in an `unsigned long`. */
  function ThroughInt(n: nat): Word {
    var t := n % 0x1_0000_0000;
    if t < 0x8000_0000 then t else TWO64 - 0x1_0000_0000 + t
  }

  /** The frame count survives the `int` return type exactly when it is below 2^31; otherwise its low 32
      bits do, with the sign extended. */
  lemma CountSurvives(n: Word)
    requires n < FRAME_LIMIT
    ensures ThroughInt(n) == n <==> n < 0x8000_0000
    ensures ThroughInt(n) % 0x1_0000_0000 == n % 0x1_0000_0000
    ensures ThroughInt(n) < 0x8000_0000 || ThroughInt(n) >= 0xffff_ffff_8000_0000
  {
  }

  // ---------- The pool ----------

  lemma PushLink(m: Memory, first: nat, free: seq<nat>, f: nat)
    requires Chain(m, first, free) && f !in free && 512 * f < |m| && first < TWO64
    ensures Chain(m[512 * f := first], 4096 * f, [f] + free)
  {
    var m', free' := m[512 * f := first], [f] + free;
    forall k: nat | k < |free'| ensures ChainOk(m', free', k) {
      if k > 0 {
        assert ChainOk(m, free, k - 1);
        assert free[k - 1] in free;
      }
    }
  }

  /** m' is m but for the first words of some frames. */
  ghost predicate OnlyLinks(m: Memory, m': Memory, frames: seq<nat>) {
    |m'| == |m| && forall k: nat :: k < |m| && m'[k] != m[k] ==> exists f :: f in frames && k == 512 * f
  }

  lemma ListedAll(m: Memory, first: nat, free: seq<nat>, found: seq<nat>)
    requires Listed(m, first, free, found)
    ensures Chain(m, first, Reverse(found))
  {
  }

  lemma NoFrames(e: MemmapEntry)
    requires e.kind != LIMINE_MEMMAP_USABLE
    ensures FramesOf(e) == []
  {
  }

  lemma NothingLinked(m: Memory, entries: seq<MemmapEntry>)
    ensures Listed(m, 0, [], []) && Discovered(entries[..0]) == [] && OnlyLinks(m, m, Discovered(entries))
  {
  }

  lemma OneLink(m: Memory, m': Memory, frames: seq<nat>, f: nat, x: Word)
    requires OnlyLinks(m, m', frames) && f in frames && 512 * f < |m|
    ensures OnlyLinks(m, m'[512 * f := x], frames)
  {
  }

  lemma LinksTwice(m: Memory, m1: Memory, m2: Memory, some: seq<nat>, frames: seq<nat>)
    requires OnlyLinks(m, m1, frames) && OnlyLinks(m1, m2, some) && forall f :: f in some ==> f in frames
    ensures OnlyLinks(m, m2, frames)
  {
    forall k: nat | k < |m| && m2[k] != m[k] ensures exists f :: f in frames && k == 512 * f {
      if m2[k] != m1[k] {
        var f :| f in some && k == 512 * f;
        assert f in frames;
      }
    }
  }

  /** Links make no frame clean and no clean frame dirty. */
  lemma LinksKeepClean(m: Memory, m': Memory, frames: seq<nat>, g: nat)
    requires OnlyLinks(m, m', frames)
    ensures Clean(m', g) <==> Clean(m, g)
  {
    forall i: nat | 1 <= i < 512 ensures Quiet(m', g, i) <==> Quiet(m, g, i) {
      assert 512 * g + i < |m| ==> m'[512 * g + i] == m[512 * g + i];
    }
  }

  lemma LinksSpare(m: Memory, m': Memory, frames: seq<nat>)
    requires OnlyLinks(m, m', frames)
    ensures Spares(SetOf(frames), {}, m, m')
  {
    assert forall f: nat :: 512 * f / 512 == f;
  }

  /** The head of any list has no word with the present bit, and so makes an empty root without being
      cleared, exactly when it is clean: the link itself never has the bit. */
  lemma HeadIsEmptyRoot(m: Memory, first: nat, free: seq<nat>)
    requires Chain(m, first, free) && free != []
    ensures NonePresent(m, free[0]) <==> Clean(m, free[0])
  {
    assert ChainOk(m, free, 0);
    assert LinkTo(free, 1) % 2 == 0;
    if Clean(m, free[0]) {
      forall i: nat | i < 512 ensures Quiet(m, free[0], i) {
        assert i > 0 ==> Quiet(m, free[0], i);
      }
    } else {
      var i: nat :| 1 <= i < 512 && !Quiet(m, free[0], i);
    }
  }

  /** The frames found when the inner loop has covered `offset` bytes of an entry. */
  function FoundBy(done: seq<nat>, e: MemmapEntry, offset: nat): seq<nat> {
    if offset / 4096 <= |FramesOf(e)| then done + FramesOf(e)[..offset / 4096] else done
  }

  predicate AtBlock(e: MemmapEntry, offset: int) {
    0 <= offset <= e.length && offset % 4096 == 0
  }

  lemma FoundByEnds(done: seq<nat>, e: MemmapEntry)
    requires e.kind == LIMINE_MEMMAP_USABLE
    ensures FoundBy(done, e, 0) == done && FoundBy(done, e, e.length) == done + FramesOf(e)
  {
    assert FramesOf(e)[..e.length / 4096] == FramesOf(e);
  }

  /** The list is `free`, made of the frames found so far in reverse order. */
  ghost predicate Listed(m: Memory, first: nat, free: seq<nat>, found: seq<nat>) {
    Chain(m, first, free) && free == Reverse(found)
  }

  lemma BlockFrame(e: MemmapEntry, offset: nat, size: nat)
    requires EntryWellFormed(e, size) && e.kind == LIMINE_MEMMAP_USABLE && offset < e.length && AtBlock(e, offset)
    ensures var b := e.base + offset;
      && b < TWO64 && 4096 * (b / 4096) == b && b / 8 == 512 * (b / 4096) < size
      && offset / 4096 < |FramesOf(e)| && FramesOf(e)[offset / 4096] == b / 4096
    ensures AtBlock(e, offset + 4096) && (offset + 4096) / 4096 == offset / 4096 + 1
  {
    var k := offset / 4096;
    assert offset == 4096 * k && k < e.length / 4096;
    assert e.base + offset == 4096 * (e.base / 4096 + k);
  }

  /** One turn of the inner loop of find_free_frames. */
  lemma ListNext(m: Memory, m': Memory, first: Word, free: seq<nat>, free': seq<nat>, all: seq<nat>,
                 done: seq<nat>, e: MemmapEntry, offset: nat)
    requires NoDuplicates(all) && done + FramesOf(e) <= all
    requires EntryWellFormed(e, |m|) && e.kind == LIMINE_MEMMAP_USABLE
    requires offset < e.length && AtBlock(e, offset)
    requires Listed(m, first, free, FoundBy(done, e, offset))
    requires (e.base + offset) / 8 < |m| && m' == m[(e.base + offset) / 8 := first]
    requires free' == [(e.base + offset) / 4096] + free
    ensures Listed(m', e.base + offset, free', FoundBy(done, e, offset + 4096))
    ensures |FoundBy(done, e, offset + 4096)| == |FoundBy(done, e, offset)| + 1
  {
    BlockFrame(e, offset, |m|);
    var frames, k := FramesOf(e), offset / 4096;
    NextFrame(all, done, frames, k);
    PushLink(m, first, free, frames[k]);
  }

  /** The world at boot: every discovered frame is free, the last one found first. */
  function BootWorld(entries: seq<MemmapEntry>): World {
    World(Reverse(Discovered(entries)), {}, map[], map[])
  }

  /** Type 0 is usable memory: these entries' frames, and no others, are discovered. */
  lemma DiscoveredExactly(entries: seq<MemmapEntry>, size: nat, list: seq<nat>)
    requires MemmapOk(entries, size) && list == Reverse(Discovered(entries))
    ensures NoDuplicates(list) && |list| == TotalFrames(entries)
    ensures forall f: nat :: f in list <==>
      exists i :: 0 <= i < |entries| && entries[i].kind == 0 && entries[i].base <= 4096 * f < entries[i].base + entries[i].length
  {
    hide MemmapOk, Discovered, Reverse;
    DiscoveredOnce(entries, size);
    ReverseNoDuplicates(Discovered(entries));
    ReverseSame(Discovered(entries));
    forall f: nat ensures f in list <==> InSomeEntry(entries, f) {
      DiscoveredMembers(entries, size, f);
    }
  }

  lemma EntryUnique(entries: seq<MemmapEntry>, size: nat, i: nat, j: nat, f: nat)
    requires MemmapOk(entries, size) && i < |entries| && j < |entries|
    requires InEntry(entries[i], f) && InEntry(entries[j], f)
    ensures i == j
  {
    assert i < j ==> Apart(entries[i], entries[j]);
    assert j < i ==> Apart(entries[j], entries[i]);
  }

  /** Frames are discovered entry by entry, and from the bottom up in each. */
  lemma {:induction false} DiscoveredOrder(entries: seq<MemmapEntry>, size: nat, a: nat, b: nat, i: nat, j: nat)
    requires MemmapOk(entries, size) && a < b < |Discovered(entries)| && i < |entries| && j < |entries|
    requires InEntry(entries[i], Discovered(entries)[a]) && InEntry(entries[j], Discovered(entries)[b])
    ensures i < j || (i == j && Discovered(entries)[a] < Discovered(entries)[b])
  {
    var k := |entries| - 1;
    var init, e, D := entries[..k], entries[k], Discovered(entries);
    var n := |Discovered(init)|;
    MemmapInit(entries, size);
    if b < n {
      OfInit(entries, size, a, i);
      OfInit(entries, size, b, j);
      DiscoveredOrder(init, size, a, b, i, j);
    } else {
      FramesOfExact(e, size, D[b]);
      assert D[b] == FramesOf(e)[b - n];
      EntryUnique(entries, size, j, k, D[b]);
      if a < n {
        OfInit(entries, size, a, i);
      }
    }
  }

  /** A frame that was discovered before the last entry is in an earlier entry. */
  lemma OfInit(entries: seq<MemmapEntry>, size: nat, a: nat, i: nat)
    requires MemmapOk(entries, size) && entries != [] && a < |Discovered(entries[..|entries| - 1])|
    requires i < |entries| && InEntry(entries[i], Discovered(entries)[a])
    ensures i < |entries| - 1 && Discovered(entries)[a] == Discovered(entries[..|entries| - 1])[a]
  {
    var init := entries[..|entries| - 1];
    var f := Discovered(init)[a];
    MemmapInit(entries, size);
    DiscoveredMembers(init, size, f);
    var j :| 0 <= j < |init| && InEntry(init[j], f);
    EntryUnique(entries, size, i, j, f);
  }

  /** The free list at boot: later entries come first, and in each entry higher frames. */
  lemma ListOrder(entries: seq<MemmapEntry>, size: nat, list: seq<nat>, a: nat, b: nat, i: nat, j: nat)
    requires MemmapOk(entries, size) && list == Reverse(Discovered(entries))
    requires a < b < |list| && i < |entries| && j < |entries|
    requires entries[i].kind == 0 && entries[i].base <= 4096 * list[a] < entries[i].base + entries[i].length
    requires entries[j].kind == 0 && entries[j].base <= 4096 * list[b] < entries[j].base + entries[j].length
    ensures i > j || (i == j && list[a] > list[b])
  {
    ReverseSame(Discovered(entries));
    DiscoveredOrder(entries, size, |list| - 1 - b, |list| - 1 - a, j, i);
  }

  /** The head and the links that a list has in memory, written out. */
  lemma ChainWords(m: Memory, first: nat, list: seq<nat>, k: nat)
    requires Chain(m, first, list)
    ensures first == if list == [] then 0 else 4096 * list[0]
    ensures k < |list| ==>
      512 * list[k] < |m| && m[512 * list[k]] == (if k + 1 < |list| then 4096 * list[k + 1] else 0)
  {
    assert k < |list| ==> ChainOk(m, list, k);
  }

  /** The words that links may change: first words of frames in entries of type 0. */
  lemma LinkedWords(m: Memory, m': Memory, entries: seq<MemmapEntry>, size: nat)
    requires OnlyLinks(m, m', Discovered(entries)) && MemmapOk(entries, size)
    ensures |m'| == |m| && forall k: nat :: k < |m| && m'[k] != m[k] ==>
      k % 512 == 0 && exists i :: 0 <= i < |entries| && entries[i].kind == 0 && entries[i].base <= 8 * k < entries[i].base + entries[i].length
  {
    hide MemmapOk, Discovered;
    forall k: nat | k < |m| && m'[k] != m[k]
      ensures k % 512 == 0
      ensures exists i :: 0 <= i < |entries| && entries[i].kind == 0 && entries[i].base <= 8 * k < entries[i].base + entries[i].length {
      var f :| f in Discovered(entries) && k == 512 * f;
      DiscoveredMembers(entries, size, f);
      var i :| 0 <= i < |entries| && InEntry(entries[i], f);
      assert entries[i].kind == 0;
    }
  }

  /** The words of the pool's frames lie in entries of type 0. */
  lemma PoolWords(m: Memory, m': Memory, entries: seq<MemmapEntry>, size: nat)
    requires Spares(SetOf(Discovered(entries)), {}, m, m') && MemmapOk(entries, size)
    ensures forall k: nat :: k < |m| && m'[k] != m[k] ==>
      exists i :: 0 <= i < |entries| && entries[i].kind == 0 && entries[i].base <= 8 * k < entries[i].base + entries[i].length
  {
    hide Discovered;
    forall k: nat | k < |m| && m'[k] != m[k]
      ensures exists i :: 0 <= i < |entries| && entries[i].kind == 0 && entries[i].base <= 8 * k < entries[i].base + entries[i].length {
      var f := k / 512;
      assert f in Discovered(entries);
      DiscoveredMembers(entries, size, f);
      var i :| 0 <= i < |entries| && InEntry(entries[i], f);
      assert EntryWellFormed(entries[i], size);
      WordInEntry(entries[i].base, entries[i].length, k);
    }
  }

  lemma WordInEntry(base: nat, length: nat, k: nat)
    requires base % 4096 == 0 && length % 4096 == 0 && base <= 4096 * (k / 512) < base + length
    ensures base <= 8 * k < base + length
  {
  }

  /** What find_free_frames builds is a valid pool with nothing handed out. */
  lemma BootHolds(m: Memory, first: nat, entries: seq<MemmapEntry>)
    requires MemmapOk(entries, |m|)
    requires Chain(m, first, Reverse(Discovered(entries))) && forall f :: f in Discovered(entries) ==> Clean(m, f)
    ensures Holds(m, first, TotalFrames(entries), SetOf(Discovered(entries)), BootWorld(entries))
  {
    var all := Discovered(entries);
    var usable, w := SetOf(all), BootWorld(entries);
    DiscoveredOnce(entries, |m|);
    ReverseNoDuplicates(all);
    ReverseSame(all);
    forall f: nat ensures f in usable <==> f in all
                  ensures f in all ==> FrameOk(f, |m|) {
      DiscoveredMembers(entries, |m|, f);
    }
    assert WorldOk(usable, |m|, w);
  }

  lemma {:induction false} DiscoveredPrefix(entries: seq<MemmapEntry>, k: nat)
    requires k <= |entries|
    ensures Discovered(entries[..k]) <= Discovered(entries)
  {
    if k < |entries| {
      var init := entries[..|entries| - 1];
      DiscoveredPrefix(init, k);
      assert init[..k] == entries[..k];
    } else {
      assert entries[..k] == entries;
    }
  }

  lemma DiscoveredStep(entries: seq<MemmapEntry>, i: nat)
    requires i < |entries|
    ensures Discovered(entries[..i + 1]) == Discovered(entries[..i]) + FramesOf(entries[i])
    ensures Discovered(entries[..i + 1]) <= Discovered(entries)
    ensures forall f :: f in FramesOf(entries[i]) ==> f in Discovered(entries)
  {
    assert entries[..i + 1][..i] == entries[..i];
    DiscoveredPrefix(entries, i + 1);
  }

  /** The next frame of an entry is new and belongs to the discovered frames. */
  lemma NextFrame(all: seq<nat>, done: seq<nat>, frames: seq<nat>, k: nat)
    requires NoDuplicates(all) && done + frames <= all && k < |frames|
    ensures frames[k] in all && frames[k] !in Reverse(done + frames[..k])
    ensures Reverse(done + frames[..k + 1]) == [frames[k]] + Reverse(done + frames[..k])
  {
    var s := done + frames[..k];
    assert done + frames[..k + 1] == s + [frames[k]];
    ReverseSnoc(s, frames[k]);
    ReverseSame(s);
    assert s == all[..|s|] && frames[k] == all[|s|];
  }

  function SetOf(s: seq<nat>): set<nat> {
    set x | x in s
  }

  lemma {:induction false} NoDuplicatesSize(s: seq<nat>)
    requires NoDuplicates(s)
    ensures |SetOf(s)| == |s|
  {
    if s != [] {
      var init, x := s[..|s| - 1], s[|s| - 1];
      NoDuplicatesSize(init);
      assert s == init + [x] && x !in init;
      assert SetOf(s) == SetOf(init) + {x};
    }
  }

  /** The free list never outgrows the addressable frames, so its counter cannot wrap. */
  lemma FreeListSmall(usable: set<nat>, size: nat, w: World)
    requires WorldOk(usable, size, w)
    ensures |w.free| <= FRAME_LIMIT
  {
    NoDuplicatesSize(w.free);
    assert forall f :: f in w.free ==> f in usable;
    SubsetSize(SetOf(w.free), Interval(0, FRAME_LIMIT));
  }

  class FramePool {
    const mem: array<Word>       // physical memory; the word at address a is mem[a / 8]
    var firstPageFrame: Word
    var nFreePageFrames: Word
    ghost var usable: set<nat>
    ghost var world: World

    ghost predicate Valid()
      reads this, mem
    {
      Holds(mem[..], firstPageFrame, nFreePageFrames, usable, world)
    }

    /** Write the link word of a block and make the list start there. */
    method PushBlock(newBlock: Word)
      requires newBlock / 8 < mem.Length
      modifies this`firstPageFrame, mem
      ensures mem[..] == old(mem[..])[newBlock / 8 := old(firstPageFrame)]
      ensures firstPageFrame == newBlock
    {
      mem[newBlock / 8] := firstPageFrame;
      firstPageFrame := newBlock;
    }

    /** The inner loop of find_free_frames: thread the frames of one usable entry. */
    method ThreadEntry(entry: MemmapEntry, ghost all: seq<nat>, ghost done: seq<nat>, ghost free: seq<nat>)
      returns (count: nat, ghost free': seq<nat>)
      requires entry.kind == LIMINE_MEMMAP_USABLE && EntryWellFormed(entry, mem.Length)
      requires NoDuplicates(all) && done + FramesOf(entry) <= all
      requires Listed(mem[..], firstPageFrame, free, done)
      modifies this`firstPageFrame, mem
      ensures Listed(mem[..], firstPageFrame, free', done + FramesOf(entry))
      ensures OnlyLinks(old(mem[..]), mem[..], FramesOf(entry))
      ensures count == |FramesOf(entry)|
    {
      FoundByEnds(done, entry);
      count, free' := 0, free;
      var bOffset := 0;
      while bOffset < entry.length
        invariant AtBlock(entry, bOffset) && |done| + count == |FoundBy(done, entry, bOffset)|
        invariant Listed(mem[..], firstPageFrame, free', FoundBy(done, entry, bOffset))
        invariant OnlyLinks(old(mem[..]), mem[..], FramesOf(entry))
      {
        BlockFrame(entry, bOffset, mem.Length);
        var newBlock := entry.base + bOffset;
        ghost var m, list, first := mem[..], free', firstPageFrame;
        PushBlock(newBlock);
        ghost var f: nat := newBlock / 4096;
        free' := [f] + list;
        OneLink(old(mem[..]), m, FramesOf(entry), f, first);
        ListNext(m, mem[..], first, list, free', all, done, entry, bOffset);
        count := count + 1;
        bOffset := bOffset + 4096;
      }
    }

    /** Thread the frames of every usable entry on the list, each in front of those before it. */
    method FindFreeFrames(entries: seq<MemmapEntry>) returns (ret: Word, ghost list: seq<nat>)
      requires firstPageFrame == 0 && MemmapOk(entries, mem.Length)
      modifies this`firstPageFrame, mem
      ensures list == Reverse(Discovered(entries)) && Chain(mem[..], firstPageFrame, list)
      ensures forall f: nat :: f in list <==>
        exists i :: 0 <= i < |entries| && entries[i].kind == 0 && entries[i].base <= 4096 * f < entries[i].base + entries[i].length
      ensures NoDuplicates(list)
      ensures |list| < 0x8000_0000 ==> ret == |list|
      ensures |list| == TotalFrames(entries) && ret == ThroughInt(|list|)
      ensures OnlyLinks(old(mem[..]), mem[..], Discovered(entries))
      ensures forall k: nat :: k < mem.Length && mem[k] != old(mem[k]) ==>
        k % 512 == 0 && exists i :: 0 <= i < |entries| && entries[i].kind == 0 && entries[i].base <= 8 * k < entries[i].base + entries[i].length
    {
      hide Chain, Listed, OnlyLinks, Discovered, FramesOf, Reverse;
      NothingLinked(mem[..], entries);
      var count := 0;
      ghost var free: seq<nat>, all, found: seq<nat> := [], Discovered(entries), [];
      DiscoveredOnce(entries, mem.Length);
      var i := 0;
      while i < |entries|
        invariant 0 <= i <= |entries|
        invariant found == Discovered(entries[..i]) && count == |found|
        invariant Listed(mem[..], firstPageFrame, free, found)
        invariant OnlyLinks(old(mem[..]), mem[..], all)
      {
        var entry := entries[i];
        ghost var next := found + FramesOf(entry);
        DiscoveredStep(entries, i);
        if entry.kind == LIMINE_MEMMAP_USABLE {
          ghost var m := mem[..];
          var n;
          n, free := ThreadEntry(entry, all, found, free);
          LinksTwice(old(mem[..]), m, mem[..], FramesOf(entry), all);
          count := count + n;
        } else {
          NoFrames(entry);
          assert next == found;
        }
        found := next;
        i := i + 1;
      }
      assert entries[..i] == entries;
      ListedAll(mem[..], firstPageFrame, free, found);
      ret, list := ThroughInt(count), Reverse(found);
      DiscoveredExactly(entries, mem.Length, list);
      LinkedWords(old(mem[..]), mem[..], entries, mem.Length);
    }

    /** Unlink and return the first free frame; an empty list is the spinning ASSERT. */
    method GetPhysBlock() returns (ret: Word)
      requires Valid() && firstPageFrame != 0
      modifies this`firstPageFrame, this`nFreePageFrames, this`world
      ensures Valid() && old(world.free) != [] && Take(old(world)) == Some(world)
      ensures ret == 4096 * old(world.free[0]) && ret == old(firstPageFrame)
      ensures ret / 8 < mem.Length && firstPageFrame == mem[ret / 8]
      ensures nFreePageFrames == old(nFreePageFrames) - 1
      ensures NonePresent(mem[..], ret / 4096)
    {
      TakeHolds(mem[..], firstPageFrame, nFreePageFrames, usable, world);
      ret := firstPageFrame;
      firstPageFrame := mem[firstPageFrame / 8];
      nFreePageFrames := nFreePageFrames - 1;
      world := Take(world).value;
    }

    /** Push a cleaned frame that is currently handed out. */
    method PutPhysBlock(bAddr: Word)
      requires Valid() && bAddr % 4096 == 0 && bAddr / 4096 in world.held && Clean(mem[..], bAddr / 4096)
      modifies this`firstPageFrame, this`nFreePageFrames, this`world, mem
      ensures Valid() && world == Give(old(world), bAddr / 4096)
      ensures bAddr / 8 < mem.Length && mem[..] == old(mem[..])[bAddr / 8 := old(firstPageFrame)]
      ensures firstPageFrame == bAddr
      ensures nFreePageFrames == old(nFreePageFrames) + 1
    {
      ghost var f := bAddr / 4096;
      assert FrameOk(f, mem.Length);
      assert |world.free| <= FRAME_LIMIT by {
        FreeListSmall(usable, mem.Length, world);
      }
      GiveHolds(mem[..], mem[..][512 * f := firstPageFrame], firstPageFrame, nFreePageFrames, usable, world, f);
      PushBlock(bAddr);
      nFreePageFrames := nFreePageFrames + 1;
      world := Give(world, f);
    }
  }
}

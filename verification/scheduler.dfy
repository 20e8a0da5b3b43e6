/** kernel/generic/scheduler.c: the table of tasks. */
module Scheduler {
  import opened Structures
  import opened Wrappers
  import opened Worlds
  import opened PhysicalMemory
  import opened Mem
  import opened Proc

  const N_TASKS := 128
  const NO_TASK: Word := TWO64 - 1

  datatype SchedState = RUNNING | BLOCKED | READY

  datatype Task = Task(
    present: int,
    state: SchedState,
    elapsedTotal: Word,
    elapsedSinceRun: Word,
    pml4Table: Word,
    privilegeLevel: int)

  /** The first slot that is not present, or the number of slots. */
  function FirstFree(tasks: seq<Task>): nat {
    if tasks == [] then 0
    else if tasks[0].present == 0 then 0
    else 1 + FirstFree(tasks[1..])
  }

  lemma {:induction false} FirstFreeIs(tasks: seq<Task>, k: nat)
    requires k <= |tasks| && (forall i :: 0 <= i < k ==> tasks[i].present != 0)
    requires k < |tasks| ==> tasks[k].present == 0
    ensures FirstFree(tasks) == k
  {
    if k > 0 {
      FirstFreeIs(tasks[1..], k - 1);
    }
  }

  /** The task table together with the memory that tasks are built from. */
  datatype Kernel = Kernel(tasks: seq<Task>, world: World)

  /** The operations of one new_task: its own frame, then a task space with no executable. */
  function NewTaskOps(free: seq<nat>): seq<Op>
    requires |free| >= 3 && free[2] < FRAME_LIMIT
  {
    [Get] + TaskOps(free[1], free[2], 0, 0)
  }

  function Started(frame: nat, t: Task): Task
    requires frame < FRAME_LIMIT
  {
    t.(present := 1, state := READY, elapsedTotal := 0, elapsedSinceRun := 0,
       pml4Table := 4096 * frame, privilegeLevel := 3)
  }

  /** new_task, with the slot it returns; None when it spins on an empty pool. */
  function NewTaskStep(kn: Kernel): Option<(Kernel, Word)>
    requires |kn.tasks| == N_TASKS
  {
    var k, free := FirstFree(kn.tasks), kn.world.free;
    if k >= |kn.tasks| then Some((kn, NO_TASK))
    else if |free| < 3 || free[0] >= FRAME_LIMIT || free[2] >= FRAME_LIMIT then None
    else
      var w :- Run(kn.world, NewTaskOps(free));
      Some((Kernel(kn.tasks[k := Started(free[0], kn.tasks[k])], w), k))
  }

  /** n calls of new_task, with the slots they return. */
  function NewTasks(kn: Kernel, n: nat): (r: Option<(Kernel, seq<Word>)>)
    requires |kn.tasks| == N_TASKS
    ensures r.Some? ==> |r.value.0.tasks| == N_TASKS
  {
    if n == 0 then Some((kn, []))
    else
      var (k1, ids) :- NewTasks(kn, n - 1);
      var (k2, id) :- NewTaskStep(k1);
      Some((k2, ids + [id]))
  }

  // ---------- Slots and frames over runs ----------

  /** The present slots are the first k. */
  predicate Prefix(tasks: seq<Task>, k: nat) {
    k <= |tasks| == 128 && forall i :: 0 <= i < |tasks| ==> (tasks[i].present != 0 <==> i < k)
  }

  function Min(a: nat, b: nat): nat {
    if a < b then a else b
  }

  /** new_task with a free slot succeeds exactly when six frames are free, and takes six. */
  lemma NewTaskFrames(usable: set<nat>, size: nat, w: World)
    requires WorldOk(usable, size, w) && |w.free| >= 3
    ensures w.free[0] < FRAME_LIMIT && w.free[2] < FRAME_LIMIT
    ensures var r := Run(w, NewTaskOps(w.free));
      && (r.Some? <==> 6 <= |w.free|)
      && (r.Some? ==> r.value.free == w.free[6..] && WorldOk(usable, size, r.value))
  {
    hide Run, TaskOps, Step, TaskMaps, WorldOk;
    var w1 := Take(w).value;
    FramesOk(usable, size, w);
    GetIsTake(w);
    StepKeeps(usable, size, w, Get);
    var ops := TaskOps(w.free[1], w.free[2], 0, 0);
    RunOne(w, w1, Get, ops);
    TaskCost(usable, size, w1, 0, 0);
    TaskTableCount(w1.free[0], w1.free[1], 0, 0);
    if Run(w, NewTaskOps(w.free)).Some? {
      RunKeeps(usable, size, w, NewTaskOps(w.free));
      assert w.free[1..][5..] == w.free[6..];
    }
  }

  lemma GetIsTake(w: World)
    ensures Step(w, Get) == Take(w)
  {
  }

  lemma FramesOk(usable: set<nat>, size: nat, w: World)
    requires WorldOk(usable, size, w)
    ensures forall k :: 0 <= k < |w.free| ==> w.free[k] < FRAME_LIMIT
  {
    forall k | 0 <= k < |w.free| ensures w.free[k] < FRAME_LIMIT {
      assert w.free[k] in w.free && FrameOk(w.free[k], size);
    }
  }

  function Filled(k: nat, n: nat): nat
    requires k <= 128
  {
    Min(n, 128 - k)
  }

  /** What n calls give: success exactly when six frames are free for each slot that gets filled;
      the present slots a prefix; slots k, k+1, ... returned until the table is full and NO_TASK
      after that; six frames taken for each filled slot and none for a refused call. */
  ghost predicate CallsGive(usable: set<nat>, size: nat, kn: Kernel, k: nat, n: nat, r: Option<(Kernel, seq<Word>)>)
    requires k <= N_TASKS
  {
    && (r.Some? <==> 6 * Filled(k, n) <= |kn.world.free|)
    && (r.Some? ==>
      && Prefix(r.value.0.tasks, k + Filled(k, n)) && WorldOk(usable, size, r.value.0.world)
      && r.value.0.world.free == kn.world.free[6 * Filled(k, n)..]
      && |r.value.1| == n
      && forall j :: 0 <= j < n ==> r.value.1[j] == if k + j < 128 then k + j else 0xffff_ffff_ffff_ffff)
  }

  /** Every run of new_task calls from a table whose present slots are the first k. */
  lemma {:induction false} TaskRuns(usable: set<nat>, size: nat, kn: Kernel, k: nat, n: nat)
    requires WorldOk(usable, size, kn.world) && Prefix(kn.tasks, k)
    ensures CallsGive(usable, size, kn, k, n, NewTasks(kn, n))
  {
    hide NewTaskStep, WorldOk, Prefix, CallsGive;
    PrefixShort(kn.tasks, k);
    if n == 0 {
      NoCalls(usable, size, kn, k);
    } else {
      TaskRuns(usable, size, kn, k, n - 1);
      OneMoreCall(usable, size, kn, k, n, NewTasks(kn, n - 1));
    }
  }

  lemma NoCalls(usable: set<nat>, size: nat, kn: Kernel, k: nat)
    requires WorldOk(usable, size, kn.world) && Prefix(kn.tasks, k) && k <= |kn.tasks| == N_TASKS
    ensures CallsGive(usable, size, kn, k, 0, NewTasks(kn, 0))
  {
    hide WorldOk, Prefix;
    assert Filled(k, 0) == 0 && kn.world.free[0..] == kn.world.free;
  }

  lemma OneMoreCall(usable: set<nat>, size: nat, kn: Kernel, k: nat, n: nat, r: Option<(Kernel, seq<Word>)>)
    requires k <= N_TASKS && n >= 1 && |kn.tasks| == N_TASKS
    requires r == NewTasks(kn, n - 1) && CallsGive(usable, size, kn, k, n - 1, r)
    ensures CallsGive(usable, size, kn, k, n, NewTasks(kn, n))
  {
    hide NewTaskStep, WorldOk, Prefix;
    var filled, free := Filled(k, n - 1), kn.world.free;
    if r.Some? {
      NewTaskOnce(usable, size, r.value.0, k + filled);
      if 6 * filled + 6 <= |free| {
        assert free[6 * filled..][6..] == free[6 * filled + 6..];
      }
    }
  }

  lemma PrefixShort(tasks: seq<Task>, k: nat)
    requires Prefix(tasks, k)
    ensures k <= |tasks| == N_TASKS
  {
  }

  lemma NewTaskOnce(usable: set<nat>, size: nat, kn: Kernel, k: nat)
    requires WorldOk(usable, size, kn.world) && Prefix(kn.tasks, k) && |kn.tasks| == N_TASKS
    ensures var r := NewTaskStep(kn);
      if k == N_TASKS then r == Some((kn, NO_TASK))
      else
        && (r.Some? <==> 6 <= |kn.world.free|)
        && (r.Some? ==>
          && r.value.1 == k && Prefix(r.value.0.tasks, k + 1)
          && WorldOk(usable, size, r.value.0.world) && r.value.0.world.free == kn.world.free[6..])
  {
    hide Run, NewTaskOps, WorldOk;
    FirstFreeIs(kn.tasks, k);
    if k < N_TASKS && |kn.world.free| >= 3 {
      NewTaskFrames(usable, size, kn.world);
    }
  }

  /** A root's address stored in a frame of the pool's own. */
  lemma DestIsOwn(usable: set<nat>, held: set<nat>, held': set<nat>, m: Memory, m': Memory, f: nat)
    requires OnlyDest(usable, held', m, m', InFrame(f)) && held <= held' && f in usable && f !in held
    ensures Spares(usable, held, m, m')
  {
    assert 512 * f / 512 == f;
  }

  lemma DestSame(usable: set<nat>, held: set<nat>, m: Memory, m': Memory, f: nat)
    requires |m'| == |m| && forall k: nat | k < |m| && (k / 512 !in usable || k / 512 in held) :: k == 512 * f || m'[k] == m[k]
    ensures OnlyDest(usable, held, m, m', InFrame(f))
  {
  }

  // ---------- The table ----------

  class TaskTable {
    const tasks: array<Task>
    var currentTask: int

    constructor (t: Task)
      ensures tasks.Length == N_TASKS && fresh(tasks)
    {
      tasks := new Task[N_TASKS](_ => t);
      currentTask := 0;
    }

    /** Mark every slot as not present. */
    method SchedulerInit()
      requires tasks.Length == N_TASKS
      modifies this, tasks
      ensures currentTask == -1 && Prefix(tasks[..], 0)
      ensures forall i :: 0 <= i < N_TASKS ==> tasks[i] == old(tasks[i]).(present := 0)
    {
      currentTask := -1;
      var i := 0;
      while i < N_TASKS
        invariant 0 <= i <= N_TASKS && currentTask == -1
        invariant forall j :: 0 <= j < i ==> tasks[j] == old(tasks[j]).(present := 0)
        invariant forall j :: i <= j < N_TASKS ==> tasks[j] == old(tasks[j])
      {
        tasks[i] := tasks[i].(present := 0);
        i := i + 1;
      }
    }

    /** Fill the first free slot and build its memory; with no free slot, change nothing. */
    method NewTask(pool: FramePool) returns (id: Word)
      requires tasks.Length == N_TASKS && pool.Valid()
      requires NewTaskStep(Kernel(tasks[..], pool.world)).Some?
      modifies tasks, pool, pool.mem
      ensures pool.Valid() && pool.usable == old(pool.usable)
      ensures NewTaskStep(old(Kernel(tasks[..], pool.world))) == Some((Kernel(tasks[..], pool.world), id))
      ensures (forall j :: 0 <= j < 128 ==> old(tasks[j].present) != 0) <==> id == 0xffff_ffff_ffff_ffff
      ensures id == 0xffff_ffff_ffff_ffff ==>
        tasks[..] == old(tasks[..]) && pool.mem[..] == old(pool.mem[..]) && pool.world == old(pool.world)
      ensures id != 0xffff_ffff_ffff_ffff ==>
        && id < 128 && old(tasks[id].present) == 0 && (forall j :: 0 <= j < id ==> old(tasks[j].present) != 0)
        && |old(pool.world.free)| >= 6
        && tasks[id] == Task(1, READY, 0, 0, 4096 * old(pool.world.free[0]), 3)
        && (forall j :: 0 <= j < 128 && j != id ==> tasks[j] == old(tasks[j]))
        && pool.world.free == old(pool.world.free)[6..]
        && 512 * old(pool.world.free[0]) < pool.mem.Length
        && pool.mem[512 * old(pool.world.free[0])] == 4096 * old(pool.world.free[1])
        && TaskSeen(pool.mem[..], old(pool.world.free[1]), old(pool.world.free[2]), 0, 0)
      ensures Spares(pool.usable, old(pool.world.held), old(pool.mem[..]), pool.mem[..])
    {
      hide Run, TaskOps, Holds, Spares, OnlyDest, TaskSeen, WorldOk, NonePresent, FirstFree;
      ghost var usable, held, m0 := pool.usable, pool.world.held, pool.mem[..];
      SparesSelf(usable, held, m0);
      ghost var kn := Kernel(tasks[..], pool.world);
      ghost var free := pool.world.free;
      var i := 0;
      while i < N_TASKS && tasks[i].present != 0
        invariant 0 <= i <= N_TASKS
        invariant forall j :: 0 <= j < i ==> tasks[j].present != 0
      {
        i := i + 1;
      }
      FirstFreeIs(tasks[..], i);
      if i == N_TASKS {
        return NO_TASK;
      }
      HeadOfList(pool.mem[..], pool.firstPageFrame, pool.nFreePageFrames, pool.usable, pool.world);
      HoldsWorld(pool.mem[..], pool.firstPageFrame, pool.nFreePageFrames, pool.usable, pool.world);
      NewTaskFrames(usable, pool.mem.Length, pool.world);
      NotSpared(m0, pool.firstPageFrame, pool.nFreePageFrames, usable, pool.world, free[0]);
      tasks[i] := tasks[i].(present := 1, state := READY, elapsedTotal := 0, elapsedSinceRun := 0);
      ghost var w0 := pool.world;
      var table := pool.GetPhysBlock();
      tasks[i] := tasks[i].(pml4Table := table, privilegeLevel := 3);
      ghost var w1, ops := pool.world, TaskOps(free[1], free[2], 0, 0);
      GetIsTake(w0);
      RunOne(w0, w1, Get, ops);
      var root := InitTaskSpaceFromMem(pool, InFrame(table / 4096), 0, 0);
      assert OnlyDest(usable, w1.held, m0, pool.mem[..], InFrame(free[0])) by {
        DestSame(usable, w1.held, m0, pool.mem[..], free[0]);
      }
      DestIsOwn(usable, held, w1.held, m0, pool.mem[..], free[0]);
      assert tasks[..] == kn.tasks[i := Started(free[0], kn.tasks[i])];
      return i;
    }
  }
}

/**
 * What the frame accounting comes to over whole runs: any sequence of the steps that the methods of Memory are made
 * of, from the state initialize_paging leaves.
 */
module FrameRuns {
  import opened Layout
  import opened Lists
  import opened PageTables
  import opened FramePool
  import M = Memory

  datatype Machine = Machine(pool: Pool, tables: Tables)

  /** t is the frame of a page table and i an index in it. A remap is an Unmap and a Map. */
  datatype Step =
    | Allocate
    | Map(t: nat, i: nat, e: Entry)
    | Unmap(t: nat, i: nat)
    | NewTable(t: nat)
    | SetPermissions(t: nat, i: nat, perm: set<Perm>)
    | Buffer(t: nat, i: nat)
    | Restore(t: nat, i: nat)

  predicate IsEntry(m: Machine, t: nat, i: nat) {
    t in m.tables && i < |m.tables[t]|
  }

  /** What each step asks of its caller: no buffered frame is reclaimed, and a mapped frame is in hand or in use. */
  ghost predicate Enabled(n: nat, m: Machine, step: Step) {
    match step
    case Allocate => CanAllocate(m.pool)
    case Map(t, i, e) =>
      && IsEntry(m, t, i) && m.tables[t][i] == EMPTY && Present in e.perm && Buffered !in e.perm
      && (e.frame in m.pool.inHand || (e.frame < n && Sized(n, m.pool) && m.pool.refs[e.frame] > 0 && !m.pool.buffered[e.frame]))
    case Unmap(t, i) => IsEntry(m, t, i) && Present in m.tables[t][i].perm
    case NewTable(t) => t !in m.tables
    case SetPermissions(t, i, perm) =>
      IsEntry(m, t, i) && Present in m.tables[t][i].perm && Present in perm && Buffered !in perm
    case Buffer(t, i) =>
      IsEntry(m, t, i) && Present in m.tables[t][i].perm && |Holders(m.tables, m.tables[t][i].frame)| == 1
    case Restore(t, i) => IsEntry(m, t, i) && Buffered in m.tables[t][i].perm
  }

  /**
   * What each step does. That the frame it moves exists and is referenced is not part of the relation: where it
   * is not so, m' can be anything.
   */
  ghost predicate Takes(n: nat, m: Machine, step: Step, m': Machine) {
    && Sized(n, m.pool) && Enabled(n, m, step)
    && match step
       case Allocate => m.pool.free[0] < n ==> m' == Machine(Allocated(m.pool), m.tables)
       case Map(t, i, e) => e.frame < n ==> m' == Machine(Mapped(m.pool, e.frame), Write(m.tables, t, i, e))
       case Unmap(t, i) =>
         var f := m.tables[t][i].frame;
         f < n && m.pool.refs[f] > 0 ==> m' == Machine(Unmapped(m.pool, f), Write(m.tables, t, i, EMPTY))
       case NewTable(t) => m' == Machine(m.pool, m.tables[t := seq(ENTRIES, _ => EMPTY)])
       case SetPermissions(t, i, perm) => m' == Machine(m.pool, Write(m.tables, t, i, Entry(m.tables[t][i].frame, perm)))
       case Buffer(t, i) =>
         var e := m.tables[t][i];
         e.frame < n ==> m' == Machine(Victimised(m.pool, e), Write(m.tables, t, i, Entry(e.frame, BufferedPerm(e.perm))))
       case Restore(t, i) =>
         var e := m.tables[t][i];
         e.frame < n ==> m' == Machine(Unvictimised(m.pool, e), Write(m.tables, t, i, Entry(e.frame, Restored(e.perm))))
  }

  lemma StepKeepsOk(n: nat, m: Machine, step: Step, m': Machine)
    requires Ok(n, m.pool, m.tables) && Takes(n, m, step, m')
    ensures Ok(n, m'.pool, m'.tables) && m'.pool.boot == m.pool.boot
  {
    hide Ok, Holders, EntryFlagged;
    match step {
      case Allocate => AllocateKeepsOk(n, m.pool, m.tables);
      case Map(t, i, e) =>
        InHandExists(n, m, e.frame);
        MapKeepsOk(n, m.pool, m.tables, t, i, e);
      case Unmap(t, i) => UnmapKeepsOk(n, m.pool, m.tables, t, i);
      case NewTable(t) => NewTableKeepsOk(n, m.pool, m.tables, t);
      case SetPermissions(t, i, perm) => RepermKeepsOk(n, m.pool, m.tables, t, i, perm);
      case Buffer(t, i) =>
        PresentExists(n, m, t, i);
        VictimKeepsOk(n, m.pool, m.tables, t, i);
      case Restore(t, i) => RestoreKeepsOk(n, m.pool, m.tables, t, i);
    }
  }

  lemma InHandExists(n: nat, m: Machine, f: nat)
    requires Ok(n, m.pool, m.tables)
    ensures f in m.pool.inHand ==> f < n
  {
    hide Holders;
  }

  lemma PresentExists(n: nat, m: Machine, t: nat, i: nat)
    requires Ok(n, m.pool, m.tables) && IsEntry(m, t, i) && Present in m.tables[t][i].perm
    ensures m.tables[t][i].frame < n
  {
    hide Holders;
    assert EntryFlagged(n, m.pool, m.tables[t][i]);
  }

  /** The state right after initialize_paging: frame 0 to 2, the I/O hole and the kernel's frames are held. */
  ghost predicate AtBoot(frames: nat, kernelEnd: nat, refs: seq<nat>, bootTables: seq<nat>, m: Machine) {
    && M.EXTENDED_FRAME <= kernelEnd <= frames == |refs|
    && (forall f :: 0 <= f < frames ==> refs[f] == if kernelEnd <= f || 3 <= f < M.IO_FRAME then 0 else 1)
    && m.tables == M.ZeroTables(bootTables)
    && m.pool == Pool(refs, M.NoneBuffered(frames), M.Descending(kernelEnd, frames) + M.Descending(3, M.IO_FRAME), [], refs, {})
  }

  ghost predicate IsRun(n: nat, run: seq<Machine>, steps: seq<Step>) {
    |run| == |steps| + 1 && forall i :: 0 <= i < |steps| ==> Takes(n, run[i], steps[i], run[i + 1])
  }

  lemma {:induction false} EveryRunOk(n: nat, run: seq<Machine>, steps: seq<Step>, i: nat)
    requires IsRun(n, run, steps) && i < |run| && Ok(n, run[0].pool, run[0].tables)
    ensures Ok(n, run[i].pool, run[i].tables) && run[i].pool.boot == run[0].pool.boot
  {
    hide Ok, Takes;
    if i > 0 {
      EveryRunOk(n, run, steps, i - 1);
      assert Takes(n, run[i - 1], steps[i - 1], run[i]);
      StepKeepsOk(n, run[i - 1], steps[i - 1], run[i]);
    }
  }

  lemma {:induction false} ListedOnce(s: seq<nat>, f: nat)
    requires NoDuplicates(s)
    ensures multiset(s)[f] == if f in s then 1 else 0
  {
    if s != [] {
      ListedOnce(s[1..], f);
      assert s == [s[0]] + s[1..];
      assert s[0] !in s[1..];
    }
  }

  /** The state of frame f: its count, where it is when nothing refers to it, and where it is not when something does. */
  ghost predicate Accounted(m: Machine, f: nat) {
    && f < |m.pool.refs| == |m.pool.boot| == |m.pool.buffered|
    && m.pool.refs[f] == m.pool.boot[f] + |Holders(m.tables, f)|
    && (m.pool.refs[f] == 0 && f !in m.pool.inHand ==> multiset(m.pool.free)[f] == 1)
    && (forall t: nat, i: nat :: IsEntry(m, t, i) && Holds(m.tables[t][i], f) && Present in m.tables[t][i].perm ==>
          f !in m.pool.free && f !in m.pool.modified)
    && multiset(m.pool.free)[f] + multiset(m.pool.modified)[f] <= 1
  }

  lemma OkAccounts(n: nat, m: Machine, f: nat)
    requires Ok(n, m.pool, m.tables) && f < n
    ensures Accounted(m, f)
  {
    hide Holders;
    ListedOnce(m.pool.free, f);
    ListedOnce(m.pool.modified, f);
    forall t: nat, i: nat | IsEntry(m, t, i) && Holds(m.tables[t][i], f) && Present in m.tables[t][i].perm
      ensures f !in m.pool.free && f !in m.pool.modified
    {
      MappedIsNotFree(n, m.pool, m.tables, t, i);
    }
  }

  /**
   * After any run from boot every frame's reference count is the number of entries that hold it, plus the one the
   * boot code gave it; unreferenced and in no caller's hands it is on the free list exactly once; mapped it is on
   * no list.
   */
  lemma EveryRunAccounts(frames: nat, kernelEnd: nat, refs: seq<nat>, bootTables: seq<nat>, run: seq<Machine>,
                         steps: seq<Step>, i: nat, f: nat)
    requires |run| > 0 && AtBoot(frames, kernelEnd, refs, bootTables, run[0])
    requires IsRun(frames, run, steps) && i < |run| && f < frames
    ensures Accounted(run[i], f) && run[i].pool.boot == refs
  {
    hide Ok, Takes, Accounted;
    M.BootPoolOk(kernelEnd, frames, refs, bootTables);
    EveryRunOk(frames, run, steps, i);
    OkAccounts(frames, run[i], f);
  }

  // ---- how the invariant is lost ----

  /** A frame is mapped by entry 0 of table t and then buffered, and after that a second frame is allocated. */
  function BufferingSteps(m: Machine, t: nat): (steps: seq<Step>)
    requires |m.pool.free| > 0
  {
    [Allocate, Map(t, 0, Entry(m.pool.free[0], {Present})), Buffer(t, 0), Allocate]
  }

  /** The states those steps go through. */
  function Buffering(m: Machine, t: nat): (run: seq<Machine>)
    requires |m.pool.free| > 1 && m.pool.free[0] < |m.pool.refs| == |m.pool.buffered| && m.pool.free[1] < |m.pool.refs|
    requires IsEntry(m, t, 0)
  {
    var f := m.pool.free[0];
    var m1 := Machine(Allocated(m.pool), m.tables);
    var m2 := Machine(Mapped(m1.pool, f), Write(m1.tables, t, 0, Entry(f, {Present})));
    var m3 := Machine(Victimised(m2.pool, Entry(f, {Present})), Write(m2.tables, t, 0, Entry(f, BufferedPerm({Present}))));
    [m, m1, m2, m3, Machine(Allocated(m3.pool), m3.tables)]
  }

  lemma BufferingIsRun(n: nat, m: Machine, t: nat)
    requires Ok(n, m.pool, m.tables) && |m.pool.free| > 1 && IsEntry(m, t, 0) && m.tables[t][0] == EMPTY
    requires forall f :: f in m.pool.free ==> !m.pool.buffered[f]
    requires Sized(n, m.pool) && m.pool.free[0] < n && m.pool.free[1] < n && m.pool.free[0] != m.pool.free[1]
    ensures IsRun(n, Buffering(m, t), BufferingSteps(m, t)) && Buffering(m, t)[0] == m
    ensures |Buffering(m, t)| == 5 && Sized(n, Buffering(m, t)[4].pool)
    ensures var m4, f := Buffering(m, t)[4], m.pool.free[0];
      IsEntry(m4, t, 0) && m4.tables[t][0] == Entry(f, {Buffered}) && m4.pool.boot == m.pool.boot && m.pool.free[1] in m4.pool.inHand
  {
    hide Ok, Holders, EntryFlagged;
    var run, steps, f := Buffering(m, t), BufferingSteps(m, t), m.pool.free[0];
    assert m.pool.free[1] == m.pool.free[1..][0];
    assert Takes(n, run[0], steps[0], run[1]);
    StepKeepsOk(n, run[0], steps[0], run[1]);
    assert Takes(n, run[1], steps[1], run[2]);
    StepKeepsOk(n, run[1], steps[1], run[2]);
    AllocateKeepsOk(n, m.pool, m.tables);
    HoldersAfterWrite(m.tables, t, 0, Entry(f, {Present}), f);
    assert run[2].tables[t][0] == Entry(f, {Present});
    assert BufferedPerm({Present}) == {Buffered};
    assert Takes(n, run[2], steps[2], run[3]);
    assert Takes(n, run[3], steps[3], run[4]);
  }

  lemma LosesBuffered(n: nat, m: Machine, t: nat, f: nat)
    requires Sized(n, m.pool) && f < n && m.pool.boot[f] == 0 && IsEntry(m, t, 0) && m.tables[t][0] == Entry(f, {Buffered})
    ensures Loses(m.pool.boot, m.tables[t][0])
  {
  }

  lemma AfterBoot(frames: nat, kernelEnd: nat, refs: seq<nat>, bootTables: seq<nat>, m: Machine, t: nat)
    requires AtBoot(frames, kernelEnd, refs, bootTables, m) && t in bootTables
    ensures Ok(frames, m.pool, m.tables) && Sized(frames, m.pool) && |m.pool.free| > 1 && m.pool.free[0] != m.pool.free[1]
    ensures m.pool.free[0] < frames && m.pool.free[1] < frames && m.pool.boot[m.pool.free[0]] == 0
    ensures IsEntry(m, t, 0) && m.tables[t][0] == EMPTY && forall f :: f in m.pool.free ==> !m.pool.buffered[f]
  {
    hide Ok, Holders;
    M.BootPoolOk(kernelEnd, frames, refs, bootTables);
    M.FreeAtBoot(kernelEnd, frames);
    assert m.pool.free[0] in m.pool.free && m.pool.free[1] in m.pool.free;
  }

  /**
   * Right after boot four of those steps lead to a state in which unmap_frame on the buffered entry, and map_frame of
   * the second frame over it, both break the frame invariant.
   */
  lemma BufferedPagesBreak(frames: nat, kernelEnd: nat, refs: seq<nat>, bootTables: seq<nat>, m: Machine, t: nat)
    requires AtBoot(frames, kernelEnd, refs, bootTables, m) && t in bootTables
    ensures Sized(frames, m.pool) && |m.pool.free| > 1 && m.pool.free[0] < frames && m.pool.free[1] < frames && IsEntry(m, t, 0)
    ensures var f, g, m4 := m.pool.free[0], m.pool.free[1], Buffering(m, t)[4];
      && IsRun(frames, Buffering(m, t), BufferingSteps(m, t))
      && Ok(frames, m4.pool, m4.tables) && IsEntry(m4, t, 0) && m4.tables[t][0] == Entry(f, {Buffered}) && m4.pool.refs[f] > 0
      && !Ok(frames, Unmapped(m4.pool, f), Write(m4.tables, t, 0, EMPTY))
      && !Ok(frames, Mapped(m4.pool, g), Write(m4.tables, t, 0, Entry(g, {Present})))
  {
    hide Ok, Takes, Holders, EntryFlagged, Unmapped, Mapped, AtBoot, Buffering, BufferingSteps, IsRun, Stray, Loses, Tangled;
    AfterBoot(frames, kernelEnd, refs, bootTables, m, t);
    BufferingIsRun(frames, m, t);
    var run, steps, f, g := Buffering(m, t), BufferingSteps(m, t), m.pool.free[0], m.pool.free[1];
    EveryRunOk(frames, run, steps, 4);
    UnmapExactly(frames, run[4].pool, run[4].tables, t, 0);
    InHandExists(frames, run[4], g);
    assert Loses(run[4].pool.boot, run[4].tables[t][0]) by { LosesBuffered(frames, run[4], t, f); }
    MapExactly(frames, run[4].pool, run[4].tables, t, 0, Entry(g, {Present}));
  }
}

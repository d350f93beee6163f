/** Runs of the modelled operations that end in the states the code does not recover from. */
module Witnesses {
  import opened Layout
  import opened Lists
  import opened PageTables
  import opened WorkingSet
  import FramePool
  import HeapSystem
  import L = Loader
  import M = Memory
  import ModifiedClock
  import PageFault
  import PF = PageFile
  import S = Scheduler

  // ---- the kernel heap ----

  /** Pages of the block that carries the cursor to two pages below the end of the heap. */
  const LONG_BLOCK := M.KHEAP_PAGES - 2

  /** The heap of a kernel that has just booted is unmapped. */
  lemma BlankHeap(tables: Tables, dirs: Dirs, kdir: nat, bootTables: seq<nat>, q: nat)
    requires |bootTables| == 1 + ENTRIES - Pdx(KHEAP_START) && M.IsHeapPage(q)
    requires tables == M.ZeroTables(bootTables) && dirs == map[kdir := M.KernelDirectory(bootTables)]
    ensures EntryAt(tables, dirs, kdir, q) == EMPTY
  {
    assert dirs[kdir][Pdx(q)].frame in bootTables;
  }

  ghost predicate UnmappedAhead(tables: Tables, dirs: Dirs, kdir: nat, c: nat, k: nat) {
    forall j :: 0 <= j < k ==> EntryAt(tables, dirs, kdir, M.Spin(c, j)) == EMPTY
  }

  /** A run of unmapped pages right at the cursor is the first run. */
  lemma RunAtCursor(tables: Tables, dirs: Dirs, kdir: nat, c: nat, k: nat)
    requires KHEAP_START <= c <= KHEAP_MAX && 0 < k <= M.KHEAP_PAGES
    requires UnmappedAhead(tables, dirs, kdir, c, k)
    ensures M.FreeRun(tables, dirs, kdir, c, k, 0)
    ensures forall r: nat :: M.FirstRun(tables, dirs, kdir, c, k, r) ==> r == 0
  {
    hide EntryAt;
  }

  ghost predicate NoneBuffered(flags: seq<bool>) {
    forall f :: 0 <= f < |flags| ==> !flags[f]
  }

  lemma EnoughFrames(mem: M.Memory, k: nat)
    requires mem.Valid() && k <= |mem.freeList| && NoneBuffered(mem.isBuffered)
    ensures mem.CanAllocateMany(k)
  {
    hide M.Structured, Holders;
    forall i | 0 <= i < k ensures mem.freeList[i] < |mem.isBuffered| {
      assert mem.freeList[i] in mem.freeList;
    }
  }

  ghost predicate Mapped(tables: Tables, dirs: Dirs, kdir: nat, lo: nat, k: nat) {
    forall q :: lo <= q < lo + k ==> EntryAt(tables, dirs, kdir, q) != EMPTY
  }

  lemma BlockIsMapped(tables: Tables, dirs: Dirs, kdir: nat, lo: nat, frames: seq<nat>)
    requires M.MapsFrames(tables, dirs, kdir, lo, frames)
    ensures Mapped(tables, dirs, kdir, lo, |frames|)
  {
    hide EntryAt;
    forall q | lo <= q < lo + |frames| ensures EntryAt(tables, dirs, kdir, q) != EMPTY {
      assert EntryAt(tables, dirs, kdir, lo + (q - lo)) == Entry(frames[q - lo], {Present, Writeable});
      assert Present in {Present, Writeable};
    }
  }

  /** kmalloc of k pages when the k pages at the cursor are unmapped. */
  method TakeAtCursor(mem: M.Memory, k: nat) returns (va: uint32)
    requires 0 < k <= M.KHEAP_PAGES && k <= |mem.freeList| && NoneBuffered(mem.isBuffered)
    requires mem.startAdd < KHEAP_MAX * PAGE_SIZE
    requires UnmappedAhead(mem.tables, mem.dirs, mem.kdir, mem.startAdd / PAGE_SIZE, k)
    requires mem.Valid()
    modifies mem`references, mem`isBuffered, mem`freeList, mem`tables, mem`inHand, mem`startAdd, mem`blocks
    ensures mem.Valid() && mem.isBuffered == old(mem.isBuffered)
    ensures va == old(mem.startAdd) && KHEAP_START * PAGE_SIZE <= va && va % PAGE_SIZE == 0
    ensures mem.startAdd == (M.Spin(va / PAGE_SIZE, k - 1) + 1) * PAGE_SIZE
    ensures mem.blocks == old(mem.blocks) + [M.HeapBlock(va, mem.startAdd - PAGE_SIZE)]
    ensures va / PAGE_SIZE + k > KHEAP_MAX ==> mem.tables == old(mem.tables) && mem.freeList == old(mem.freeList)
    ensures va / PAGE_SIZE + k <= KHEAP_MAX ==>
      && |mem.freeList| == |old(mem.freeList)| - k && Mapped(mem.tables, mem.dirs, mem.kdir, va / PAGE_SIZE, k)
      && M.SameOutside(old(mem.tables), mem.dirs, mem.tables, mem.dirs, va / PAGE_SIZE, va / PAGE_SIZE + k - 1)
  {
    hide FramePool.Ok, M.Structured, EntryAt, M.FreeRun, M.FirstRun, M.MapsFrames, M.SameOutside, UnmappedAhead, Mapped, PagesFor,
      NoneBuffered;
    ghost var c := mem.startAdd / PAGE_SIZE;
    WholePages(k);
    EnoughFrames(mem, k);
    RunAtCursor(mem.tables, mem.dirs, mem.kdir, c, k);
    ghost var r;
    va, r := mem.Kmalloc(k * PAGE_SIZE);
    if c + k <= KHEAP_MAX {
      BlockIsMapped(mem.tables, mem.dirs, mem.kdir, c, old(mem.freeList)[..k]);
    }
  }

  lemma WholePages(k: nat)
    requires 0 < k <= M.KHEAP_PAGES
    ensures PagesFor(k * PAGE_SIZE) == k
  {
  }

  lemma VacantAhead(tables: Tables, dirs: Dirs, kdir: nat, c: nat, k: nat)
    requires KHEAP_START <= c && c + k <= KHEAP_MAX && M.Vacant(tables, dirs, kdir, c, c + k - 1)
    ensures UnmappedAhead(tables, dirs, kdir, c, k)
  {
    hide EntryAt;
  }

  /** The last page of the heap and the first are neighbours for the walk. */
  lemma AcrossTheEnd(tables: Tables, dirs: Dirs, kdir: nat)
    requires M.Vacant(tables, dirs, kdir, KHEAP_MAX - 1, KHEAP_MAX - 1) && M.Vacant(tables, dirs, kdir, KHEAP_START, KHEAP_START)
    ensures UnmappedAhead(tables, dirs, kdir, KHEAP_MAX - 1, 2)
    ensures EntryAt(tables, dirs, kdir, KHEAP_MAX - 1) == EMPTY
  {
    hide EntryAt;
  }

  lemma FewerVacant(tables: Tables, dirs: Dirs, kdir: nat, lo: nat, hi: nat, lo': nat, hi': int)
    requires M.Vacant(tables, dirs, kdir, lo, hi) && lo <= lo' && hi' <= hi
    ensures M.Vacant(tables, dirs, kdir, lo', hi')
  {
    hide EntryAt;
  }

  lemma OutsideStays(start: Tables, tables: Tables, dirs: Dirs, kdir: nat, lo: nat, hi: nat, a: nat, k: nat)
    requires M.SameOutside(start, dirs, tables, dirs, lo, hi) && IsPage(dirs, kdir, 0)
    requires KHEAP_START <= a && a + k <= KHEAP_MAX && (a + k <= lo || hi < a)
    ensures M.Vacant(start, dirs, kdir, a, a + k - 1) ==> M.Vacant(tables, dirs, kdir, a, a + k - 1)
    ensures Mapped(start, dirs, kdir, a, k) ==> Mapped(tables, dirs, kdir, a, k)
  {
    hide EntryAt;
    forall q | a <= q < a + k ensures EntryAt(tables, dirs, kdir, q) == EntryAt(start, dirs, kdir, q) {
      assert IsPage(dirs, kdir, q);
    }
  }

  lemma AtBoot(mem: M.Memory, bootTables: seq<nat>)
    requires |bootTables| == 1 + ENTRIES - Pdx(KHEAP_START)
    requires mem.tables == M.ZeroTables(bootTables) && mem.dirs == map[mem.kdir := M.KernelDirectory(bootTables)]
    requires mem.isBuffered == M.NoneBuffered(mem.n)
    ensures M.Vacant(mem.tables, mem.dirs, mem.kdir, KHEAP_START, KHEAP_MAX - 1) && IsPage(mem.dirs, mem.kdir, 0)
    ensures NoneBuffered(mem.isBuffered)
  {
    forall q: nat | M.IsHeapPage(q) ensures EntryAt(mem.tables, mem.dirs, mem.kdir, q) == EMPTY {
      BlankHeap(mem.tables, mem.dirs, mem.kdir, bootTables, q);
    }
  }

  lemma FreedIsEnough(s: FramePool.Pool, s': FramePool.Pool)
    requires M.MoreFree(s, s') && NoneBuffered(s.buffered)
    ensures NoneBuffered(s'.buffered) && |s'.free| >= |s.free|
  {
  }

  /**
   * After boot: a long block, a block of one page near the end, the long block back, and then two pages, which cross
   * the end of the heap. kmalloc returns an address at which nothing is mapped, and from then on the kernel does not
   * find the block near the end by its physical address.
   */
  method HeapEndIsLost(frames: nat, kernelEnd: nat, kernelDir: nat, bootTables: seq<nat>)
    returns (mem: M.Memory, block: uint32, lost: uint32, back: uint32)
    requires M.EXTENDED_FRAME <= kernelEnd && kernelEnd + LONG_BLOCK <= frames && M.EXTENDED_FRAME <= kernelDir < kernelEnd
    requires |bootTables| == 1 + ENTRIES - Pdx(KHEAP_START) && NoDuplicates(bootTables)
    requires forall i :: 0 <= i < |bootTables| ==> M.EXTENDED_FRAME <= bootTables[i] < kernelEnd && bootTables[i] != kernelDir
    ensures mem.Valid() && M.IsHeapPage(lost / PAGE_SIZE) && mem.At(mem.kdir, lost / PAGE_SIZE) == EMPTY
    ensures M.IsHeapPage(block / PAGE_SIZE) && mem.At(mem.kdir, block / PAGE_SIZE) != EMPTY && back == 0
  {
    hide FramePool.Ok, M.Structured, EntryAt, M.SameOutside, M.Vacant, UnmappedAhead, Mapped, NoneBuffered, M.KernelDirectory, M.ZeroTables,
      M.Descending, M.MoreFree;
    mem := new M.Memory.Boot(frames, kernelEnd, kernelDir, bootTables);
    ghost var dirs, kdir := mem.dirs, mem.kdir;
    AtBoot(mem, bootTables);
    FewerVacant(mem.tables, dirs, kdir, KHEAP_START, KHEAP_MAX - 1, KHEAP_START, KHEAP_START + LONG_BLOCK - 1);
    FewerVacant(mem.tables, dirs, kdir, KHEAP_START, KHEAP_MAX - 1, KHEAP_MAX - 2, KHEAP_MAX - 1);

    VacantAhead(mem.tables, dirs, kdir, KHEAP_START, LONG_BLOCK);
    ghost var before := mem.tables;
    var long := TakeAtCursor(mem, LONG_BLOCK);
    OutsideStays(before, mem.tables, dirs, kdir, KHEAP_START, KHEAP_MAX - 3, KHEAP_MAX - 2, 2);
    FewerVacant(mem.tables, dirs, kdir, KHEAP_MAX - 2, KHEAP_MAX - 1, KHEAP_MAX - 2, KHEAP_MAX - 2);
    FewerVacant(mem.tables, dirs, kdir, KHEAP_MAX - 2, KHEAP_MAX - 1, KHEAP_MAX - 1, KHEAP_MAX - 1);

    VacantAhead(mem.tables, dirs, kdir, KHEAP_MAX - 2, 1);
    before := mem.tables;
    block := TakeAtCursor(mem, 1);
    OutsideStays(before, mem.tables, dirs, kdir, KHEAP_MAX - 2, KHEAP_MAX - 2, KHEAP_MAX - 1, 1);

    TwoBlocks(mem.blocks, long);
    before := mem.tables;
    ghost var s := mem.Frames();
    mem.Kfree(long);
    FreedIsEnough(s, mem.Frames());
    OutsideStays(before, mem.tables, dirs, kdir, KHEAP_START, KHEAP_MAX - 3, KHEAP_MAX - 1, 1);
    OutsideStays(before, mem.tables, dirs, kdir, KHEAP_START, KHEAP_MAX - 3, KHEAP_MAX - 2, 1);

    FewerVacant(mem.tables, dirs, kdir, KHEAP_START, KHEAP_MAX - 3, KHEAP_START, KHEAP_START);
    AcrossTheEnd(mem.tables, dirs, kdir);
    lost := TakeAtCursor(mem, 2);
    MappedOne(mem.tables, dirs, kdir, KHEAP_MAX - 2);
    back := mem.KheapRoundTrip(block);
  }

  /** The search for k pages from the end of the heap goes on after every number of steps. */
  ghost predicate NeverStops(tables: Tables, dirs: Dirs, kdir: nat, k: nat) {
    forall r: nat :: M.Run(tables, dirs, kdir, KHEAP_MAX, r) != k
  }

  /** Where every page of the heap is mapped no run of unmapped pages ever comes by. */
  lemma NoRun(tables: Tables, dirs: Dirs, kdir: nat, k: nat)
    requires Mapped(tables, dirs, kdir, KHEAP_START, M.KHEAP_PAGES) && k > 0
    ensures NeverStops(tables, dirs, kdir, k)
  {
    hide EntryAt, M.Run;
    forall r: nat ensures !M.FreeRun(tables, dirs, kdir, KHEAP_MAX, k, r) {
      assert EntryAt(tables, dirs, kdir, M.Spin(KHEAP_MAX, r)) != EMPTY;
    }
    forall r: nat ensures M.Run(tables, dirs, kdir, KHEAP_MAX, r) != k {
      M.StopsExactly(tables, dirs, kdir, k);
    }
  }

  /**
   * After boot one kmalloc of the whole heap leaves the cursor at its end, and the search of the next one goes round
   * forever, whatever its size: x never reaches it.
   */
  method HeapIsFull(frames: nat, kernelEnd: nat, kernelDir: nat, bootTables: seq<nat>) returns (mem: M.Memory)
    requires M.EXTENDED_FRAME <= kernelEnd && kernelEnd + M.KHEAP_PAGES <= frames && M.EXTENDED_FRAME <= kernelDir < kernelEnd
    requires |bootTables| == 1 + ENTRIES - Pdx(KHEAP_START) && NoDuplicates(bootTables)
    requires forall i :: 0 <= i < |bootTables| ==> M.EXTENDED_FRAME <= bootTables[i] < kernelEnd && bootTables[i] != kernelDir
    ensures mem.Valid() && mem.startAdd == KHEAP_MAX * PAGE_SIZE
    ensures forall k: nat :: k > 0 ==> NeverStops(mem.tables, mem.dirs, mem.kdir, k)
  {
    hide FramePool.Ok, M.Structured, EntryAt, M.SameOutside, M.Vacant, UnmappedAhead, Mapped, NoneBuffered, M.KernelDirectory, M.ZeroTables,
      M.Descending, NeverStops;
    mem := new M.Memory.Boot(frames, kernelEnd, kernelDir, bootTables);
    AtBoot(mem, bootTables);
    VacantAhead(mem.tables, mem.dirs, mem.kdir, KHEAP_START, M.KHEAP_PAGES);
    var all := TakeAtCursor(mem, M.KHEAP_PAGES);
    forall k: nat | k > 0 ensures NeverStops(mem.tables, mem.dirs, mem.kdir, k) {
      NoRun(mem.tables, mem.dirs, mem.kdir, k);
    }
  }

  lemma MappedOne(tables: Tables, dirs: Dirs, kdir: nat, q: nat)
    requires Mapped(tables, dirs, kdir, q, 1)
    ensures EntryAt(tables, dirs, kdir, q) != EMPTY
  {
    hide EntryAt;
  }

  lemma TwoBlocks(blocks: seq<M.HeapBlock>, va: uint32)
    requires |blocks| == 2 && blocks[0].first == va && blocks[1].first != va
    ensures M.NewestBlock(blocks, va) == [blocks[0]]
  {
    assert M.NewestBlock(blocks[..1], va) == [blocks[0]];
  }

  // ---- the page file ----

  /**
   * A segment at or above USER_TOP, with file bytes and memory within a page, is loaded into a fresh page file; when
   * the environment is freed its disk frame is gone for good.
   */
  method FrameIsForgotten(image: seq<PF.Page>, atBoot: PF.Page, id: nat, seg: L.Segment) returns (pf: PF.PageFile)
    requires |image| == PF.PAGES_PER_FILE
    requires L.Loadable(seg) && seg.va >= USER_TOP && seg.sizeInMemory < PAGE_SIZE
    ensures pf.Valid() && id !in pf.dirs && !pf.NoLeak()
  {
    hide PF.Sound, PF.Complete, PF.Mapping, L.WithPages, L.Written, M.Descending;
    pf := new PF.PageFile.Initialize(image, atBoot);
    ghost var store := pf.View();
    OneFrame(store, id, L.FirstPage(seg));
    assert L.WrittenPages(seg) == 1;
    var panic := L.WriteSegment(pf, id, seg);
    L.InWithPages(store, id, L.FirstPage(seg), L.Written(seg, pf.zeroPage), (id, L.FirstPage(seg)));
    PF.InView(pf, id, L.FirstPage(seg));
    assert PF.Dfn(pf.dirs, id, L.FirstPage(seg)) != 0;
    pf.FreeEnv(id);
  }

  lemma OneFrame(store: PF.Store, id: nat, p: nat)
    ensures PF.NewPages(store, id, p, 1) <= 1
  {
    assert PF.NewPages(store, id, p, 0) == 0;
  }

  // ---- the scheduler ----

  /** One program runs, a second one is loaded, and ends before it ran: its environment is in no queue any more. */
  method EnvironmentIsLost(nenv: nat) returns (sched: S.Scheduler)
    requires 2 <= nenv <= S.GENERATION
    ensures sched.Valid() && !sched.Complete()
  {
    sched := new S.Scheduler(nenv);
    var first := sched.Load();
    var ok := sched.SchedRunEnv(S.GENERATION);
    var second := sched.Load();
    ok := sched.SchedExitEnv(S.GENERATION + 1);
  }

  // ---- buffered pages ----

  /** What Evict leaves at the page of slot v. */
  lemma VictimIsBuffered(before: Tables, tables: Tables, dirs: Dirs, dir: nat, slots: seq<Slot>, ps: ModifiedClock.Perms, v: nat,
                         page: nat, boot: seq<nat>)
    requires v < |slots| && PageFault.Replaced(before, tables, dirs, dir, PagesOf(slots), ps, v, page)
    ensures EntryAt(before, dirs, dir, slots[v].va / PAGE_SIZE).frame < |boot| ==>
      (HeapSystem.NoneLost(boot, tables, dirs, dir, slots[v].va / PAGE_SIZE, 1)
       <==> boot[EntryAt(before, dirs, dir, slots[v].va / PAGE_SIZE).frame] > 0)
  {
    hide EntryAt;
    assert PagesOf(slots)[v] == slots[v].va / PAGE_SIZE;
  }

  lemma SlotOfPage(n: nat, slots: seq<Slot>, tables: Tables, dirs: Dirs, dir: nat, home: map<nat, nat>, startAdd: int, i: nat)
    requires Resident(n, slots, tables, dirs, dir, home, startAdd) && i < |slots| && !slots[i].empty
    ensures slots[i].va % PAGE_SIZE == 0 && slots[i].va + PAGE_SIZE <= USER_TOP
    ensures M.Reaches(dirs, home, startAdd, dir, slots[i].va / PAGE_SIZE)
    ensures EntryAt(tables, dirs, dir, slots[i].va / PAGE_SIZE).frame < n
  {
    hide EntryAt, Holders;
  }

  lemma BootSize(mem: M.Memory)
    requires mem.Valid()
    ensures |mem.boot| == mem.n
  {
    hide M.Structured, Holders;
  }

  /**
   * A page is evicted, and then the block it belongs to is freed. The frame invariant survives exactly if the page's
   * frame has a reference from boot.
   */
  method EvictThenFree(env: Env, mem: M.Memory, pf: PF.PageFile, page: nat) returns (victim: uint32)
    requires env.hand < env.ws.Length && forall i :: 0 <= i < env.ws.Length ==> !env.ws[i].empty && env.ws[i].va > 0
    requires Present !in mem.At(env.dir, page).perm && IsPage(mem.dirs, env.dir, page) && page < USER_TOP_PAGE
    requires env.Valid(mem) && pf.Valid()
    modifies pf, mem`references, mem`isBuffered, mem`freeList, mem`modifiedList, mem`tables, env`hand, env.ws
    ensures old(mem.At(env.dir, victim / PAGE_SIZE).frame) < |mem.boot|
    ensures mem.Valid() <==> mem.boot[old(mem.At(env.dir, victim / PAGE_SIZE).frame)] > 0
  {
    hide FramePool.Ok, M.Structured, EntryAt, Holders, Resident, ModifiedClock.IsVictim, ModifiedClock.FinalPerms, PageFault.Replaced,
      HeapSystem.NoneLost, HeapSystem.Freed, HeapSystem.Dropped, PF.Sound, PF.Complete, PF.Mapping, PF.NewPages;
    var slots := env.ws[..];
    ghost var before, hand := mem.tables, env.hand;
    BootSize(mem);
    var lastIDX := PageFault.Evict(env, mem, page);
    victim := slots[lastIDX].va;
    SlotOfPage(mem.n, slots, before, mem.dirs, env.dir, mem.home, mem.startAdd, lastIDX);
    ghost var ps := PageFault.PermsOf(slots, before, mem.dirs, env.dir);
    VictimIsBuffered(before, mem.tables, mem.dirs, env.dir, slots, ModifiedClock.FinalPerms(ps, hand, lastIDX), lastIDX, page, mem.boot);
    HeapSystem.FreeMem(env, mem, pf, victim, PAGE_SIZE);
  }

  /** A present page in a frame of its own. */
  ghost predicate InUse(s: FramePool.Pool, e: Entry) {
    && Present in e.perm && Buffered !in e.perm
    && e.frame < |s.buffered| && !s.buffered[e.frame] && e.frame !in s.free && e.frame !in s.modified
  }

  lemma SlotsInUse(mem: M.Memory, slots: seq<Slot>, dir: nat)
    requires Resident(mem.n, slots, mem.tables, mem.dirs, dir, mem.home, mem.startAdd) && mem.Valid()
    requires forall i :: 0 <= i < |slots| ==> !slots[i].empty
    ensures forall i :: 0 <= i < |slots| ==> InUse(mem.Frames(), EntryAt(mem.tables, mem.dirs, dir, slots[i].va / PAGE_SIZE))
  {
    hide EntryAt, Holders, M.Structured, FramePool.Ok;
    forall i | 0 <= i < |slots| ensures InUse(mem.Frames(), EntryAt(mem.tables, mem.dirs, dir, slots[i].va / PAGE_SIZE)) {
      mem.PresentFrame(dir, slots[i].va / PAGE_SIZE);
    }
  }

  /** The bits of the victim after the search are its bits before, apart from the used bit. */
  lemma VictimBits(slots: seq<Slot>, before: Tables, dirs: Dirs, dir: nat, hand: nat, v: nat)
    requires v < |slots| && var e := EntryAt(before, dirs, dir, slots[v].va / PAGE_SIZE); Present in e.perm && Buffered !in e.perm
    ensures var fin := ModifiedClock.FinalPerms(PageFault.PermsOf(slots, before, dirs, dir), hand, v)[v];
      Present in fin && Buffered !in fin
  {
    hide EntryAt, ModifiedClock.FinalPerms;
    ModifiedClock.BitsTaken(PageFault.PermsOf(slots, before, dirs, dir), hand, v, v);
  }

  lemma VictimEntry(before: Tables, tables: Tables, dirs: Dirs, dir: nat, slots: seq<Slot>, ps: ModifiedClock.Perms, v: nat, page: nat)
    requires v < |slots| && PageFault.Replaced(before, tables, dirs, dir, PagesOf(slots), ps, v, page)
    ensures |ps| == |slots| && EntryAt(tables, dirs, dir, slots[v].va / PAGE_SIZE)
         == Entry(EntryAt(before, dirs, dir, slots[v].va / PAGE_SIZE).frame, ps[v] + {Buffered} - {Present})
  {
    hide EntryAt;
    assert PagesOf(slots)[v] == slots[v].va / PAGE_SIZE;
  }

  /** A page that is evicted and faulted back has the frame it had and the bits the search left it, and so have the lists. */
  method EvictThenReturn(env: Env, mem: M.Memory, pf: PF.PageFile, page: nat) returns (victim: uint32, lastIDX: nat)
    requires env.hand < env.ws.Length && forall i :: 0 <= i < env.ws.Length ==> !env.ws[i].empty && env.ws[i].va < USTACKTOP
    requires Present !in mem.At(env.dir, page).perm && IsPage(mem.dirs, env.dir, page) && page < USER_TOP_PAGE
    requires env.Valid(mem) && pf.Valid()
    modifies pf, mem, env`hand, env.ws
    ensures lastIDX < env.ws.Length && victim == old(env.ws[..])[lastIDX].va
    ensures var ps := PageFault.PermsOf(old(env.ws[..]), old(mem.tables), mem.dirs, env.dir);
      && ModifiedClock.IsVictim(ps, old(env.hand), lastIDX)
      && mem.At(env.dir, victim / PAGE_SIZE)
      == Entry(old(mem.At(env.dir, victim / PAGE_SIZE)).frame, ModifiedClock.FinalPerms(ps, old(env.hand), lastIDX)[lastIDX])
    ensures mem.Valid() && mem.Frames() == old(mem.Frames())
  {
    hide FramePool.Ok, M.Structured, EntryAt, Holders, Resident, ModifiedClock.IsVictim, ModifiedClock.FinalPerms, PageFault.Replaced,
      PF.Sound, PF.Complete, PF.Mapping, FramePool.Victimised, FramePool.Unvictimised;
    ghost var slots, before, hand, s := env.ws[..], mem.tables, env.hand, mem.Frames();
    var listed := env.ws[..];
    SlotsInUse(mem, slots, env.dir);
    lastIDX := PageFault.Evict(env, mem, page);
    victim := listed[lastIDX].va;
    ghost var fin := ModifiedClock.FinalPerms(PageFault.PermsOf(slots, before, mem.dirs, env.dir), hand, lastIDX);
    SlotOfPage(mem.n, slots, before, mem.dirs, env.dir, mem.home, mem.startAdd, lastIDX);
    VictimEntry(before, mem.tables, mem.dirs, env.dir, slots, fin, lastIDX, page);
    VictimBits(slots, before, mem.dirs, env.dir, hand, lastIDX);
    ghost var e := Entry(EntryAt(before, mem.dirs, env.dir, victim / PAGE_SIZE).frame, fin[lastIDX]);
    FramePool.ComesBack(s, e);
    mem.ValidIsTallied();
    mem.MappedEntry(env.dir, victim / PAGE_SIZE);
    var _, _ := PageFault.BringIn(env, mem, pf, victim);
  }
}

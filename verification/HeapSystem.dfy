/**
 * malloc and free end to end: the user heap of lib/uheap.c with the system calls it makes, allocateMem and freeMem
 * of kern/memory_manager.c.
 */
module HeapSystem {
  import opened Layout
  import opened PageTables
  import opened UserHeap
  import opened PageFile
  import opened WorkingSet
  import FramePool
  import M = Memory
  import PageFault

  /** USER_HEAP_START / PAGE_SIZE */
  const HEAP_PAGE := USER_HEAP_START / PAGE_SIZE

  // ---- allocateMem ----

  /** What a page-file space error leaves undone stays undone: allocateMem ignores the error and goes on. */
  ghost function Filled(zero: Page, store: Store, free: nat, id: nat, p: nat, k: nat): (Store, nat) {
    if k == 0 then (store, free) else Added(zero, Filled(zero, store, free, id, p, k - 1), (id, p + k - 1))
  }

  /** pf_add_empty_env_page on the map and the number of free disk frames. */
  ghost function Added(zero: Page, state: (Store, nat), page: (nat, nat)): (Store, nat) {
    if page in state.0 then (state.0[page := zero], state.1)
    else if state.1 > 0 then (state.0[page := zero], state.1 - 1)
    else (state.0, 0)
  }

  ghost function ZeroPages(zero: Page, id: nat, p: nat, k: nat): Store {
    imap key: (nat, nat) | InRange(key, id, p, k) :: zero
  }

  ghost function WithZeros(zero: Page, store: Store, id: nat, p: nat, k: nat): Store {
    store + ZeroPages(zero, id, p, k)
  }

  /** None of the k pages is in the store yet. */
  ghost predicate AllNew(store: Store, id: nat, p: nat, k: nat) {
    forall key :: InRange(key, id, p, k) ==> key !in store
  }

  lemma ZeroPagesGrow(zero: Page, store: Store, id: nat, p: nat, k: nat)
    ensures WithZeros(zero, store, id, p, k)[(id, p + k) := zero] == WithZeros(zero, store, id, p, k + 1)
    ensures WithZeros(zero, store, id, p, 0) == store
    ensures forall key :: key in WithZeros(zero, store, id, p, k) <==> key in store || InRange(key, id, p, k)
  {
    forall key: (nat, nat) ensures InRange(key, id, p, k + 1) <==> InRange(key, id, p, k) || key == (id, p + k) { }
  }

  /** On new pages it adds copies of the zero page, all of them if the page file has room and the first ones otherwise. */
  lemma {:induction false} FilledNew(zero: Page, store: Store, free: nat, id: nat, p: nat, k: nat)
    requires AllNew(store, id, p, k)
    ensures var m := if k <= free then k else free;
      Filled(zero, store, free, id, p, k) == (WithZeros(zero, store, id, p, m), free - m)
  {
    hide WithZeros, AllNew, InRange, Added;
    ZeroPagesGrow(zero, store, id, p, 0);
    if k > 0 {
      AllNewBut(store, id, p, k);
      FilledNew(zero, store, free, id, p, k - 1);
      var m := if k - 1 <= free then k - 1 else free;
      ZeroPagesGrow(zero, store, id, p, m);
      FilledAt(zero, store, id, p, k, m, k - 1);
      AddedTo(zero, Filled(zero, store, free, id, p, k - 1), (id, p + k - 1));
    }
  }

  lemma AddedTo(zero: Page, state: (Store, nat), page: (nat, nat))
    requires page !in state.0
    ensures Added(zero, state, page) == if state.1 > 0 then (state.0[page := zero], state.1 - 1) else (state.0, 0)
  {
  }

  lemma AllNewBut(store: Store, id: nat, p: nat, k: nat)
    requires AllNew(store, id, p, k) && k > 0
    ensures AllNew(store, id, p, k - 1) && (id, p + k - 1) !in store
  {
    assert InRange((id, p + k - 1), id, p, k);
  }

  method AllocateMem(pf: PageFile, id: nat, va: uint32, size0: uint32)
    requires pf.Valid() && va + RoundUp(size0, PAGE_SIZE) < KERNEL_BASE
    modifies pf
    ensures pf.Valid() && (old(pf.NoLeak()) ==> pf.NoLeak())
    ensures (pf.View(), |pf.freeList|) == Filled(pf.zeroPage, old(pf.View()), |old(pf.freeList)|, id, va / PAGE_SIZE, PagesFor(size0))
  {
    hide Sound, Complete, Mapping, RoundUp;
    var size := RoundUp(size0, PAGE_SIZE);
    WholePages(size0);
    ghost var k := 0;
    var i := va;
    while i < va + size
      invariant i == va + k * PAGE_SIZE && k <= PagesFor(size0)
      invariant pf.Valid() && (old(pf.NoLeak()) ==> pf.NoLeak())
      invariant (pf.View(), |pf.freeList|) == Filled(pf.zeroPage, old(pf.View()), |old(pf.freeList)|, id, va / PAGE_SIZE, k)
      decreases va + size - i
    {
      InView(pf, id, i / PAGE_SIZE);
      var _ := pf.AddEmptyEnvPage(id, i, true);
      i := i + PAGE_SIZE;
      k := k + 1;
    }
  }

  lemma WholePages(size: uint32)
    ensures RoundUp(size, PAGE_SIZE) == PagesFor(size) * PAGE_SIZE
  {
  }

  // ---- freeMem ----

  /** The store without the k pages of environment id from p on. */
  ghost function Dropped(store: Store, id: nat, p: nat, k: nat): Store {
    imap key: (nat, nat) | key in store && !InRange(key, id, p, k) :: store[key]
  }

  lemma DroppedStep(store: Store, id: nat, p: nat, k: nat)
    ensures Dropped(store, id, p, k) - {(id, p + k)} == Dropped(store, id, p, k + 1)
    ensures Dropped(store, id, p, 0) == store
    ensures (id, p + k) in Dropped(store, id, p, k) <==> (id, p + k) in store
  {
    forall key: (nat, nat) ensures InRange(key, id, p, k + 1) <==> InRange(key, id, p, k) || key == (id, p + k) { }
  }

  /** The first k pages of the block have left the working set and the page table; all else is as it was. */
  ghost predicate Freed(was: seq<Slot>, slots: seq<Slot>, start: Tables, tables: Tables, dirs: Dirs, dir: nat, p: nat, k: nat) {
    && |slots| == |was|
    && (forall i :: 0 <= i < |slots| ==> slots[i] == FreedSlot(was[i], p, k))
    && (forall d, q :: IsPage(dirs, d, q) ==>
          EntryAt(tables, dirs, d, q) == if d == dir && p <= q < p + k then EMPTY else EntryAt(start, dirs, d, q))
  }

  function FreedSlot(slot: Slot, p: nat, k: nat): Slot {
    if !slot.empty && p <= slot.va / PAGE_SIZE < p + k then Slot(0, true, 0) else slot
  }

  lemma FreedStep(was: seq<Slot>, slots: seq<Slot>, slots': seq<Slot>, start: Tables, before: Tables, tables: Tables,
                  dirs: Dirs, dir: nat, p: nat, k: nat)
    requires Freed(was, slots, start, before, dirs, dir, p, k) && p + k < USER_TOP_PAGE && IsPage(dirs, dir, p + k)
    requires |slots'| == |slots| && forall i :: 0 <= i < |slots| ==> slots'[i] == FreedSlot(slots[i], p + k, 1)
    requires SameElsewhere(before, dirs, tables, dirs, dir, p + k) && EntryAt(tables, dirs, dir, p + k) == EMPTY
    ensures Freed(was, slots', start, tables, dirs, dir, p, k + 1)
  {
    hide EntryAt;
  }

  lemma SameEntrySamePage(n: nat, tables: Tables, dirs: Dirs, d: nat, p: nat, q: nat)
    requires Shape(n, tables, dirs) && Separate(dirs) && IsPage(dirs, d, p) && IsPage(dirs, d, q)
    requires HasTable(dirs, d, p) && HasTable(dirs, d, q)
    requires dirs[d][Pdx(p)].frame == dirs[d][Pdx(q)].frame && Ptx(p) == Ptx(q)
    ensures p == q
  {
    assert dirs[d][Pdx(p)] != EMPTY && dirs[d][Pdx(q)] != EMPTY;
  }

  /** Two pages of one address space do not share a frame that only one entry holds. */
  lemma PrivateFramesDiffer(n: nat, tables: Tables, dirs: Dirs, d: nat, p: nat, q: nat)
    requires Shape(n, tables, dirs) && Separate(dirs) && IsPage(dirs, d, p) && IsPage(dirs, d, q) && p != q
    requires EntryAt(tables, dirs, d, p) != EMPTY && EntryAt(tables, dirs, d, q) != EMPTY
    requires |Holders(tables, EntryAt(tables, dirs, d, p).frame)| == 1
    ensures EntryAt(tables, dirs, d, q).frame != EntryAt(tables, dirs, d, p).frame
  {
    hide Holders;
    var f := EntryAt(tables, dirs, d, p).frame;
    if EntryAt(tables, dirs, d, q).frame == f {
      FramePool.OnlyHolder(tables, f, dirs[d][Pdx(p)].frame, Ptx(p), dirs[d][Pdx(q)].frame, Ptx(q));
      SameEntrySamePage(n, tables, dirs, d, p, q);
    }
  }

  /** Unmapping a page outside the working set takes no frame from it. */
  lemma ResidentWithout(n: nat, slots: seq<Slot>, before: Tables, tables: Tables, dirs: Dirs, dir: nat, home: map<nat, nat>,
                        startAdd: int, page: nat)
    requires Shape(n, before, dirs) && Separate(dirs) && IsPage(dirs, dir, page)
    requires Resident(n, slots, before, dirs, dir, home, startAdd)
    requires forall i :: 0 <= i < |slots| && !slots[i].empty ==> slots[i].va / PAGE_SIZE != page
    requires SameElsewhere(before, dirs, tables, dirs, dir, page)
    requires if EntryAt(before, dirs, dir, page) == EMPTY then tables == before else Emptied(before, tables, dirs, dir, page)
    ensures Resident(n, slots, tables, dirs, dir, home, startAdd)
  {
    hide Holders, Shape, Separate, Emptied, M.Reaches;
    forall j | 0 <= j < |slots| && !slots[j].empty
      ensures Private(n, tables, dirs, dir, home, startAdd, slots[j].va / PAGE_SIZE)
    {
      var q := slots[j].va / PAGE_SIZE;
      assert IsPage(dirs, dir, q);
      if EntryAt(before, dirs, dir, page) != EMPTY {
        PrivateFramesDiffer(n, before, dirs, dir, q, page);
        EmptiedElsewhere(before, tables, dirs, dir, page, EntryAt(before, dirs, dir, q).frame);
      }
    }
  }

  /** The entry of the page has been cleared. */
  ghost predicate Emptied(before: Tables, tables: Tables, dirs: Dirs, dir: nat, page: nat) {
    && HasTable(dirs, dir, page) && HasEntry(before, dirs[dir][Pdx(page)].frame, page)
    && tables == Write(before, dirs[dir][Pdx(page)].frame, Ptx(page), EMPTY)
  }

  lemma EmptiedElsewhere(before: Tables, tables: Tables, dirs: Dirs, dir: nat, page: nat, f: nat)
    requires Emptied(before, tables, dirs, dir, page) && EntryAt(before, dirs, dir, page).frame != f
    ensures |Holders(tables, f)| == |Holders(before, f)|
  {
    hide Holders;
    HoldersAfterWrite(before, dirs[dir][Pdx(page)].frame, Ptx(page), EMPTY, f);
  }

  /** The search of freeMem for the working-set entry of a page. */
  method ClearEntryOf(env: Env, va: uint32)
    requires va % PAGE_SIZE == 0 && va > 0
    requires forall i :: 0 <= i < env.ws.Length ==>
      if env.ws[i].empty then env.ws[i].va == 0 else env.ws[i].va % PAGE_SIZE == 0
    requires forall i, j :: 0 <= i < j < env.ws.Length && !env.ws[i].empty && !env.ws[j].empty ==> env.ws[i].va != env.ws[j].va
    modifies env.ws
    ensures forall i :: 0 <= i < env.ws.Length ==> env.ws[i] == FreedSlot(old(env.ws[i]), va / PAGE_SIZE, 1)
  {
    var j := 0;
    while j < env.ws.Length
      invariant 0 <= j <= env.ws.Length && env.ws[..] == old(env.ws[..])
      invariant forall i :: 0 <= i < j ==> env.ws[i].va != va
    {
      if RoundDown(env.ws[j].va, PAGE_SIZE) == va {
        env.ClearEntry(j);
        break;
      }
      j := j + 1;
    }
  }

  /** An empty slot has address 0, as Env's constructor and ClearEntry leave it. */
  ghost predicate Tidy(slots: seq<Slot>) {
    forall i :: 0 <= i < |slots| && slots[i].empty ==> slots[i].va == 0
  }

  /** None of the k pages from p on is one whose unmapping frees a frame that is still listed. */
  ghost predicate NoneLost(boot: seq<nat>, tables: Tables, dirs: Dirs, dir: nat, p: nat, k: nat) {
    forall q: nat :: p <= q < p + k ==> !FramePool.Loses(boot, EntryAt(tables, dirs, dir, q))
  }

  lemma NoneLostStep(boot: seq<nat>, tables: Tables, dirs: Dirs, dir: nat, p: nat, k: nat)
    ensures NoneLost(boot, tables, dirs, dir, p, 0)
    ensures NoneLost(boot, tables, dirs, dir, p, k + 1)
       <==> NoneLost(boot, tables, dirs, dir, p, k) && !FramePool.Loses(boot, EntryAt(tables, dirs, dir, p + k))
  {
    hide EntryAt, FramePool.Loses;
  }

  lemma SlotsFacts(n: nat, slots: seq<Slot>, tables: Tables, dirs: Dirs, dir: nat, home: map<nat, nat>, startAdd: int)
    requires Resident(n, slots, tables, dirs, dir, home, startAdd)
    ensures IsPage(dirs, dir, 0)
    ensures forall i :: 0 <= i < |slots| && !slots[i].empty ==> slots[i].va % PAGE_SIZE == 0
    ensures forall i, j :: 0 <= i < j < |slots| && !slots[i].empty && !slots[j].empty ==> slots[i].va != slots[j].va
  {
    hide Private;
  }

  lemma FewerSlots(n: nat, slots: seq<Slot>, slots': seq<Slot>, tables: Tables, dirs: Dirs, dir: nat, home: map<nat, nat>,
                   startAdd: int, p: nat)
    requires Resident(n, slots, tables, dirs, dir, home, startAdd) && |slots'| == |slots|
    requires forall i :: 0 <= i < |slots| ==> slots'[i] == FreedSlot(slots[i], p, 1)
    ensures Resident(n, slots', tables, dirs, dir, home, startAdd) && (Tidy(slots) ==> Tidy(slots'))
    ensures forall i :: 0 <= i < |slots'| && !slots'[i].empty ==> slots'[i].va / PAGE_SIZE != p
  {
    hide Private;
  }

  lemma LaidOut(n: nat, boot: seq<nat>, tables: Tables, dirs: Dirs, kdir: nat, home: map<nat, nat>)
    requires M.Structured(n, boot, tables, dirs, kdir, home)
    ensures Shape(n, tables, dirs) && Separate(dirs)
  {
    hide M.HeapInjective, M.Homed, Shape, Separate;
  }

  /** One turn of the loop of freeMem, up to the look for an empty table. */
  method FreePage(env: Env, mem: M.Memory, pf: PageFile, va: uint32)
    requires va % PAGE_SIZE == 0 && 0 < va < USER_TOP && Tidy(env.ws[..])
    requires mem.Reachable(env.dir, va / PAGE_SIZE)
    requires pf.Valid() && env.Resides(mem) && mem.Tallied()
    modifies pf, mem`references, mem`isBuffered, mem`freeList, mem`tables, env.ws
    ensures pf.Valid() && (old(pf.NoLeak()) ==> pf.NoLeak()) && pf.View() == old(pf.View()) - {(env.id, va / PAGE_SIZE)}
    ensures |pf.freeList| == |old(pf.freeList)| + if (env.id, va / PAGE_SIZE) in old(pf.View()) then 1 else 0
    ensures env.Resides(mem) && mem.Tallied() && Tidy(env.ws[..])
    ensures old(mem.Valid()) ==> (mem.Valid() <==> !FramePool.Loses(mem.boot, old(mem.At(env.dir, va / PAGE_SIZE))))
    ensures old(FramePool.Tangled(mem.Frames())) || (old(mem.Valid()) && !mem.Valid()) ==> FramePool.Tangled(mem.Frames())
    ensures forall i :: 0 <= i < env.ws.Length ==> env.ws[i] == FreedSlot(old(env.ws[i]), va / PAGE_SIZE, 1)
    ensures mem.At(env.dir, va / PAGE_SIZE) == EMPTY
    ensures SameElsewhere(old(mem.tables), mem.dirs, mem.tables, mem.dirs, env.dir, va / PAGE_SIZE)
  {
    hide M.Structured, FramePool.Ok, FramePool.Tangled, FramePool.Loses, Resident, EntryAt, Holders, Sound, Complete, Mapping, SameElsewhere,
      Shape, Separate, FramePool.AtLeast;
    ghost var before, slots, dir := mem.tables, env.ws[..], env.dir;
    SlotsFacts(mem.n, slots, before, mem.dirs, dir, mem.home, mem.startAdd);
    LaidOut(mem.n, mem.boot, before, mem.dirs, mem.kdir, mem.home);
    InView(pf, env.id, va / PAGE_SIZE);
    pf.UsedFrame(env.id, va / PAGE_SIZE);
    pf.RemoveEnvPage(env.id, va, true);
    ClearEntryOf(env, va);
    FewerSlots(mem.n, slots, env.ws[..], before, mem.dirs, dir, mem.home, mem.startAdd, va / PAGE_SIZE);
    mem.UnmapFrame(env.dir, va);
    ResidentWithout(mem.n, env.ws[..], before, mem.tables, mem.dirs, dir, mem.home, mem.startAdd, va / PAGE_SIZE);
  }

  /**
   * freeMem, up to the reclaiming of empty page tables: the block's pages leave the page file, the working set and
   * the page table, and nothing else changes. The frame lists survive exactly if no page of the block is buffered in
   * a frame that its entry alone holds.
   */
  method FreeMem(env: Env, mem: M.Memory, pf: PageFile, va: uint32, size: uint32)
    requires va % PAGE_SIZE == 0 && size % PAGE_SIZE == 0 && 0 < va && va + size <= USER_TOP && Tidy(env.ws[..])
    requires forall q :: va / PAGE_SIZE <= q < (va + size) / PAGE_SIZE ==> mem.Reachable(env.dir, q)
    requires pf.Valid() && env.Valid(mem)
    modifies pf, mem`references, mem`isBuffered, mem`freeList, mem`tables, env.ws
    ensures pf.Valid() && (old(pf.NoLeak()) ==> pf.NoLeak())
    ensures pf.View() == Dropped(old(pf.View()), env.id, va / PAGE_SIZE, size / PAGE_SIZE)
    ensures |pf.freeList| + NewPages(old(pf.View()), env.id, va / PAGE_SIZE, size / PAGE_SIZE)
         == |old(pf.freeList)| + size / PAGE_SIZE
    ensures env.Resides(mem) && mem.Tallied() && Tidy(env.ws[..])
    ensures Freed(old(env.ws[..]), env.ws[..], old(mem.tables), mem.tables, mem.dirs, env.dir, va / PAGE_SIZE, size / PAGE_SIZE)
    ensures mem.Valid() <==> NoneLost(mem.boot, old(mem.tables), mem.dirs, env.dir, va / PAGE_SIZE, size / PAGE_SIZE)
  {
    hide M.Structured, FramePool.Ok, FramePool.Tangled, Resident, EntryAt, Holders, Sound, Complete, Mapping, SameElsewhere, Freed, Dropped,
      Tidy, M.Reaches, FreedSlot, FramePool.Loses, NoneLost;
    ghost var store, was, start, p, k := pf.View(), env.ws[..], mem.tables, va / PAGE_SIZE, 0;
    mem.ValidIsTallied();
    NothingFreed(was, start, mem.dirs, env.dir, p);
    DroppedStep(store, env.id, p, 0);
    NoneLostStep(mem.boot, start, mem.dirs, env.dir, p, 0);
    var i := 0;
    while i < size
      invariant i == k * PAGE_SIZE && k <= size / PAGE_SIZE
      invariant pf.Valid() && (old(pf.NoLeak()) ==> pf.NoLeak()) && pf.View() == Dropped(store, env.id, p, k)
      invariant |pf.freeList| + NewPages(store, env.id, p, k) == |old(pf.freeList)| + k
      invariant env.Resides(mem) && mem.Tallied() && Tidy(env.ws[..])
      invariant Freed(was, env.ws[..], start, mem.tables, mem.dirs, env.dir, p, k)
      invariant if NoneLost(mem.boot, start, mem.dirs, env.dir, p, k) then mem.Valid() else FramePool.Tangled(mem.Frames())
      decreases size - i
    {
      ghost var slots, before := env.ws[..], mem.tables;
      InAddressSpace(env, mem, p + k);
      StillThere(was, slots, start, before, mem.dirs, env.dir, p, k);
      DroppedStep(store, env.id, p, k);
      NoneLostStep(mem.boot, start, mem.dirs, env.dir, p, k);
      assert old(mem.Reachable(env.dir, p + k)) && (va + i) / PAGE_SIZE == p + k;
      FreePage(env, mem, pf, va + i);
      FreedStep(was, slots, env.ws[..], start, before, mem.tables, mem.dirs, env.dir, p, k);
      i := i + PAGE_SIZE;
      k := k + 1;
    }
    if FramePool.Tangled(mem.Frames()) { FramePool.TangledIsNotOk(mem.n, mem.Frames(), mem.tables); }
  }

  lemma InAddressSpace(env: Env, mem: M.Memory, p: nat)
    requires env.Resides(mem) && p < USER_TOP_PAGE
    ensures IsPage(mem.dirs, env.dir, p)
  {
    hide M.Structured, FramePool.Ok, EntryAt, Holders, Private;
  }

  lemma NothingFreed(was: seq<Slot>, start: Tables, dirs: Dirs, dir: nat, p: nat)
    ensures Freed(was, was, start, start, dirs, dir, p, 0)
  {
    hide EntryAt;
  }

  lemma StillThere(was: seq<Slot>, slots: seq<Slot>, start: Tables, tables: Tables, dirs: Dirs, dir: nat, p: nat, k: nat)
    requires Freed(was, slots, start, tables, dirs, dir, p, k) && IsPage(dirs, dir, p + k)
    ensures EntryAt(tables, dirs, dir, p + k) == EntryAt(start, dirs, dir, p + k)
  {
    hide EntryAt;
  }

  // ---- malloc and free ----

  /** Only pages of live blocks are in the page file. */
  ghost predicate Backed(sizes: seq<nat>, store: Store, id: nat) {
    forall q :: 0 <= q < HEAP_PAGES && (id, HEAP_PAGE + q) in store ==> Covered(sizes, q)
  }

  /** A fault that does not panic brings no page of the heap into the page file, of whichever environment. */
  lemma FaultKeepsBacked(sizes: seq<nat>, store: Store, store': Store, id: nat, faulting: nat, va: uint32)
    requires Backed(sizes, store, id) && PageFault.OnlyStackAdded(store, store', faulting, va)
    ensures Backed(sizes, store', id)
  {
    forall q | 0 <= q < HEAP_PAGES && (id, HEAP_PAGE + q) in store' ensures Covered(sizes, q) {
      var key := (id, HEAP_PAGE + q);
    }
  }

  lemma BlockIsNew(sizes: seq<nat>, cursor: nat, k: nat, p: nat, store: Store, id: nat)
    requires Backed(sizes, store, id) && FirstFit(sizes, cursor, k, p)
    ensures AllNew(store, id, HEAP_PAGE + p, k)
  {
    forall key: (nat, nat) | InRange(key, id, HEAP_PAGE + p, k) ensures key !in store {
      var q := key.1 - HEAP_PAGE;
      assert !Covered(sizes, q);
      assert key == (id, HEAP_PAGE + q);
    }
  }

  lemma MallocKeepsBacked(zero: Page, sizes: seq<nat>, p: nat, k: nat, store: Store, id: nat, m: nat)
    requires Backed(sizes, store, id) && p < |sizes| && sizes[p] == 0 && m <= k
    ensures Backed(sizes[p := k], WithZeros(zero, store, id, HEAP_PAGE + p, m), id)
  {
    var sizes' := sizes[p := k];
    ZeroPagesGrow(zero, store, id, HEAP_PAGE + p, m);
    forall q | 0 <= q < HEAP_PAGES && (id, HEAP_PAGE + q) in WithZeros(zero, store, id, HEAP_PAGE + p, m) ensures Covered(sizes', q) {
      if (id, HEAP_PAGE + q) in store {
        assert Covered(sizes, q);
        var s :| 0 <= s <= q && s < |sizes| && q < s + sizes[s];
        assert q < s + sizes'[s];
      } else {
        assert q < p + sizes'[p];
      }
    }
  }

  lemma FreeKeepsBacked(sizes: seq<nat>, p: nat, store: Store, id: nat)
    requires Backed(sizes, store, id) && p < |sizes|
    ensures Backed(sizes[p := 0], Dropped(store, id, HEAP_PAGE + p, sizes[p]), id)
  {
    var sizes' := sizes[p := 0];
    forall q | 0 <= q < HEAP_PAGES && (id, HEAP_PAGE + q) in Dropped(store, id, HEAP_PAGE + p, sizes[p]) ensures Covered(sizes', q) {
      assert (id, HEAP_PAGE + q) in store && Covered(sizes, q);
      var s :| 0 <= s <= q && s < |sizes| && q < s + sizes[s];
      assert !InRange((id, HEAP_PAGE + q), id, HEAP_PAGE + p, sizes[p]);
      assert s != p;
      assert q < s + sizes'[s];
    }
  }

  /** A free page starts no block. */
  lemma FirstFitIsFree(sizes: seq<nat>, cursor: nat, k: nat, p: nat)
    requires FirstFit(sizes, cursor, k, p) && |sizes| == HEAP_PAGES && k > 0
    ensures p + k <= HEAP_PAGES && sizes[p] == 0
  {
    assert !Covered(sizes, p);
  }

  /** malloc under next fit: each page of the block gets a copy of the zero page in the page file, as far as there is room. */
  method Malloc(heap: Heap, pf: PageFile, id: nat, size0: uint32) returns (addr: uint32)
    requires 0 < size0 <= 0xFFFF_F000
    requires pf.Valid() && heap.Valid() && Backed(heap.checkList[..], pf.View(), id)
    modifies heap, heap.checkList, heap.uHeapArr, pf
    ensures heap.Valid() && pf.Valid() && (old(pf.NoLeak()) ==> pf.NoLeak()) && Backed(heap.checkList[..], pf.View(), id)
    ensures MallocStep(old(heap.checkList[..]), old(heap.Cursor()), PagesFor(size0), heap.checkList[..], heap.Cursor(), addr)
    ensures addr == 0 ==> pf.View() == old(pf.View()) && pf.freeList == old(pf.freeList)
    ensures addr != 0 ==>
      && AllNew(old(pf.View()), id, addr / PAGE_SIZE, PagesFor(size0))
      && var m := if PagesFor(size0) <= |old(pf.freeList)| then PagesFor(size0) else |old(pf.freeList)|;
         pf.View() == WithZeros(pf.zeroPage, old(pf.View()), id, addr / PAGE_SIZE, m) && |pf.freeList| == |old(pf.freeList)| - m
  {
    hide Sound, Complete, Mapping, RoundUp, PagesFor, WellFormed, FirstFit, Records, AllNew, WithZeros, Filled, Backed;
    ghost var sizes, cursor, k, store, free := heap.checkList[..], heap.Cursor(), PagesFor(size0), pf.View(), |pf.freeList|;
    MallocSize(size0);
    var size := RoundUp(size0, PAGE_SIZE);
    addr := heap.Place(size);
    if addr != 0 {
      ghost var p := addr / PAGE_SIZE - HEAP_PAGE;
      FirstFitIsFree(sizes, cursor, k, p);
      BlockIsNew(sizes, cursor, k, p, store, id);
      FilledNew(pf.zeroPage, store, free, id, HEAP_PAGE + p, k);
      MallocKeepsBacked(pf.zeroPage, sizes, p, k, store, id, if k <= free then k else free);
      AllocateMem(pf, id, addr, size);
    }
  }

  /** What ROUNDUP makes of a request in range: a positive number of whole pages, and itself a whole number of pages. */
  lemma MallocSize(size: uint32)
    requires 0 < size <= 0xFFFF_F000
    ensures var k := PagesFor(size);
      k > 0 && RoundUp(size, PAGE_SIZE) == k * PAGE_SIZE < 0x1_0000_0000
      && RoundUp(k * PAGE_SIZE, PAGE_SIZE) == k * PAGE_SIZE && PagesFor(k * PAGE_SIZE) == k
  {
  }

  /** free of a live block. */
  method Free(heap: Heap, env: Env, mem: M.Memory, pf: PageFile, addr: uint32)
    requires heap.Valid() && pf.Valid()
    requires USER_HEAP_START <= addr < USER_HEAP_MAX && addr % PAGE_SIZE == 0
    requires heap.checkList[addr / PAGE_SIZE - HEAP_PAGE] > 0 && Backed(heap.checkList[..], pf.View(), env.id)
    requires Tidy(env.ws[..]) && env.Valid(mem)
    requires forall q :: addr / PAGE_SIZE <= q < addr / PAGE_SIZE + heap.checkList[addr / PAGE_SIZE - HEAP_PAGE] ==>
      mem.Reachable(env.dir, q)
    modifies heap.checkList, heap.uHeapArr, pf, mem`references, mem`isBuffered, mem`freeList, mem`tables, env.ws
    ensures heap.Valid() && pf.Valid() && (old(pf.NoLeak()) ==> pf.NoLeak()) && Backed(heap.checkList[..], pf.View(), env.id)
    ensures env.Resides(mem) && mem.Tallied() && Tidy(env.ws[..])
    ensures FreeStep(old(heap.checkList[..]), old(heap.Cursor()), addr, heap.checkList[..], heap.Cursor())
    ensures var k := old(heap.checkList[..])[addr / PAGE_SIZE - HEAP_PAGE];
      && pf.View() == Dropped(old(pf.View()), env.id, addr / PAGE_SIZE, k)
      && |pf.freeList| + NewPages(old(pf.View()), env.id, addr / PAGE_SIZE, k) == |old(pf.freeList)| + k
      && Freed(old(env.ws[..]), env.ws[..], old(mem.tables), mem.tables, mem.dirs, env.dir, addr / PAGE_SIZE, k)
      && (mem.Valid() <==> NoneLost(mem.boot, old(mem.tables), mem.dirs, env.dir, addr / PAGE_SIZE, k))
  {
    hide Sound, Complete, Mapping, FirstFit, Records, Dropped, Backed, Freed, NoneLost, M.Reaches, Tidy, NewPages, Resident,
      M.Structured, FramePool.Ok;
    ghost var sizes, p := heap.checkList[..], addr / PAGE_SIZE - HEAP_PAGE;
    var size := heap.Release(addr);
    FreeKeepsBacked(sizes, p, pf.View(), env.id);
    FreeMem(env, mem, pf, addr, size);
  }

  /** A free right after the malloc restores the page file and the number of its free frames. */
  lemma MallocThenFree(zero: Page, store: Store, free: nat, id: nat, p: nat, k: nat, m: nat)
    requires AllNew(store, id, p, k) && m <= k && m <= free
    ensures var filled := WithZeros(zero, store, id, p, m);
      && Dropped(filled, id, p, k) == store
      && free - m + k - NewPages(filled, id, p, k) == free
  {
    var filled := WithZeros(zero, store, id, p, m);
    ZeroPagesGrow(zero, store, id, p, m);
    forall key: (nat, nat) ensures key in Dropped(filled, id, p, k) <==> key in store {
      assert InRange(key, id, p, m) ==> InRange(key, id, p, k);
    }
    assert Dropped(filled, id, p, k) == store;
    CountNew(zero, store, id, p, k, m, k);
  }

  lemma FilledAt(zero: Page, store: Store, id: nat, p: nat, k: nat, m: nat, j: nat)
    requires AllNew(store, id, p, k) && j < k
    ensures (id, p + j) in WithZeros(zero, store, id, p, m) <==> j < m
  {
    ZeroPagesGrow(zero, store, id, p, m);
    assert InRange((id, p + j), id, p, k);
  }

  lemma {:induction false} CountNew(zero: Page, store: Store, id: nat, p: nat, k: nat, m: nat, j: nat)
    requires AllNew(store, id, p, k) && m <= k && j <= k
    ensures NewPages(WithZeros(zero, store, id, p, m), id, p, j) == if j <= m then 0 else j - m
  {
    hide WithZeros, AllNew, InRange;
    if j > 0 {
      CountNew(zero, store, id, p, k, m, j - 1);
      FilledAt(zero, store, id, p, k, m, j - 1);
    }
  }

  // ---- the allocated-page count ----

  /** The pages of environment id below b that the store has. */
  ghost function PagesIn(store: Store, id: nat, b: nat): set<nat> {
    set p: nat | 0 <= p < b && (id, p) in store
  }

  /** pf_calculate_allocated_pages counts the pages of the map. */
  lemma CountedPages(pf: PageFile, id: nat, b: nat)
    requires pf.Valid()
    ensures UsedPages(pf.dirs, id, b) == PagesIn(pf.View(), id, b)
  {
    hide Mapping, Complete;
    forall p: nat ensures Dfn(pf.dirs, id, p) != 0 <==> (id, p) in pf.View() {
      pf.UsedFrame(id, p);
      InView(pf, id, p);
    }
  }

  lemma OneMorePage(store: Store, id: nat, p: nat, page: Page, b: nat)
    requires p < b && (id, p) !in store
    ensures |PagesIn(store[(id, p) := page], id, b)| == |PagesIn(store, id, b)| + 1
  {
    assert PagesIn(store[(id, p) := page], id, b) == PagesIn(store, id, b) + {p};
  }

  /** malloc of k pages raises the count by as many as found room. */
  lemma {:induction false} CountAfterMalloc(zero: Page, store: Store, id: nat, p: nat, k: nat, m: nat, b: nat)
    requires AllNew(store, id, p, k) && m <= k && p + k <= b
    ensures |PagesIn(WithZeros(zero, store, id, p, m), id, b)| == |PagesIn(store, id, b)| + m
  {
    hide WithZeros, AllNew, PagesIn, InRange;
    ZeroPagesGrow(zero, store, id, p, if m == 0 then 0 else m - 1);
    if m > 0 {
      CountAfterMalloc(zero, store, id, p, k, m - 1, b);
      FilledAt(zero, store, id, p, k, m - 1, m - 1);
      OneMorePage(WithZeros(zero, store, id, p, m - 1), id, p + m - 1, zero, b);
    }
  }
}

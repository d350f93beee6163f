/**
 * Physical frames, page tables and the kernel heap: kern/memory_manager.c and kern/kheap.c.
 * A virtual address va stands for page va / PAGE_SIZE of the directory d that is passed in.
 */
module Memory {
  import opened Layout
  import opened Lists
  import opened PageTables
  import opened FramePool

  /** The tables of the kernel heap exist from boot, and no frame sits at two heap pages. */
  ghost predicate HeapInjective(tables: Tables, dirs: Dirs, kdir: nat) {
    && kdir in dirs
    && (forall q :: KHEAP_START <= q <= KHEAP_MAX ==> HasTable(dirs, kdir, q))
    && (forall q :: KHEAP_START <= q <= KHEAP_MAX ==> Buffered !in EntryAt(tables, dirs, kdir, q).perm)
    && (forall q, r | KHEAP_START <= q <= KHEAP_MAX && KHEAP_START <= r <= KHEAP_MAX ::
          EntryAt(tables, dirs, kdir, q) == EMPTY
          || (Holds(EntryAt(tables, dirs, kdir, r), EntryAt(tables, dirs, kdir, q).frame) ==> q == r))
  }

  /** home[t] is the heap page at which the kernel sees the table or directory held by frame t. */
  ghost predicate Homed(n: nat, boot: seq<nat>, tables: Tables, dirs: Dirs, kdir: nat, home: map<nat, nat>)
  {
    && |boot| == n
    && (forall t | t in home :: (t in tables || t in dirs) && KHEAP_START <= home[t] < KHEAP_MAX
          && Holds(EntryAt(tables, dirs, kdir, home[t]), t))
    && (forall t :: t in tables || t in dirs ==> t in home || (t < n && boot[t] > 0))
    && (forall d, i :: d in dirs && 0 <= i < |dirs[d]| && i < USER_TOP_PDX && dirs[d][i] != EMPTY ==>
          dirs[d][i].frame in home)
  }

  ghost predicate Structured(n: nat, boot: seq<nat>, tables: Tables, dirs: Dirs, kdir: nat, home: map<nat, nat>) {
    && Shape(n, tables, dirs) && Separate(dirs) && kdir in dirs
    && HeapInjective(tables, dirs, kdir) && Homed(n, boot, tables, dirs, kdir, home)
  }

  predicate IsHeapPage(page: nat) { KHEAP_START <= page <= KHEAP_MAX }

  /**
   * A write keeps the structure when it leaves the kernel heap alone, empties a heap page that
   * holds no table, or puts a frame nobody holds at an empty heap page.
   */
  ghost predicate SafeWrite(n: nat, tables: Tables, dirs: Dirs, kdir: nat, home: map<nat, nat>, d: nat, page: nat, e: Entry)
    requires Shape(n, tables, dirs)
  {
    && IsPage(dirs, d, page) && HasTable(dirs, d, page) && (e == EMPTY || e.frame < n)
    && (IsHeapPage(page) ==> d == kdir)
    && (IsHeapPage(page) && e == EMPTY ==> EntryAt(tables, dirs, d, page).frame !in home)
    && (IsHeapPage(page) ==> Buffered !in e.perm)
    && (IsHeapPage(page) && e != EMPTY ==> EntryAt(tables, dirs, d, page) == EMPTY && Holders(tables, e.frame) == {})
  }

  lemma HeapStaysInjective(n: nat, boot: seq<nat>, tables: Tables, dirs: Dirs, kdir: nat, home: map<nat, nat>,
                           d: nat, page: nat, e: Entry)
    requires Structured(n, boot, tables, dirs, kdir, home) && SafeWrite(n, tables, dirs, kdir, home, d, page, e)
    ensures HeapInjective(Write(tables, dirs[d][Pdx(page)].frame, Ptx(page), e), dirs, kdir)
  {
    hide Homed;
    WriteChangesOnePage(n, tables, dirs, d, page, e);
    forall q | IsHeapPage(q) && Holds(EntryAt(tables, dirs, kdir, q), e.frame)
      ensures (dirs[kdir][Pdx(q)].frame, Ptx(q)) in Holders(tables, e.frame)
    {
    }
  }

  lemma HomesStay(n: nat, boot: seq<nat>, tables: Tables, dirs: Dirs, kdir: nat, home: map<nat, nat>,
                  d: nat, page: nat, e: Entry)
    requires Structured(n, boot, tables, dirs, kdir, home) && SafeWrite(n, tables, dirs, kdir, home, d, page, e)
    ensures var tables' := Write(tables, dirs[d][Pdx(page)].frame, Ptx(page), e);
      Shape(n, tables', dirs) && Homed(n, boot, tables', dirs, kdir, home)
  {
    WriteChangesOnePage(n, tables, dirs, d, page, e);
  }

  lemma WriteKeepsStructure(n: nat, boot: seq<nat>, tables: Tables, dirs: Dirs, kdir: nat, home: map<nat, nat>,
                            d: nat, page: nat, e: Entry)
    requires Structured(n, boot, tables, dirs, kdir, home) && SafeWrite(n, tables, dirs, kdir, home, d, page, e)
    ensures var tables' := Write(tables, dirs[d][Pdx(page)].frame, Ptx(page), e);
      && Structured(n, boot, tables', dirs, kdir, home)
      && EntryAt(tables', dirs, d, page) == e
      && SameElsewhere(tables, dirs, tables', dirs, d, page)
  {
    HeapStaysInjective(n, boot, tables, dirs, kdir, home, d, page, e);
    HomesStay(n, boot, tables, dirs, kdir, home, d, page, e);
    hide HeapInjective, Homed;
    WriteChangesOnePage(n, tables, dirs, d, page, e);
  }

  /** KERNEL_HEAP_MAX - KERNEL_HEAP_START in pages. */
  const KHEAP_PAGES := KHEAP_MAX - KHEAP_START

  /** The page the kernel-heap walk that starts at page c looks at after r steps. */
  function Spin(c: nat, r: nat): (page: nat)
    ensures KHEAP_START <= c <= KHEAP_MAX ==> KHEAP_START <= page < KHEAP_MAX
    ensures KHEAP_MAX <= c + r < KHEAP_MAX + KHEAP_PAGES ==> page == c + r - KHEAP_PAGES
  {
    if c + r < KHEAP_MAX then c + r else KHEAP_START + (c + r - KHEAP_MAX) % KHEAP_PAGES
  }

  lemma SpinNext(c: nat, r: nat)
    requires KHEAP_START <= c <= KHEAP_MAX
    ensures Spin(c, r + 1) == if Spin(c, r) + 1 == KHEAP_MAX then KHEAP_START else Spin(c, r) + 1
    ensures Spin(c, 0) == if c == KHEAP_MAX then KHEAP_START else c
    ensures c < KHEAP_MAX && r < KHEAP_PAGES ==> (Spin(c, r + 1) == c <==> r + 1 == KHEAP_PAGES)
  {
    if c + r >= KHEAP_MAX { ModNext(c + r - KHEAP_MAX); }
  }

  lemma ModNext(x: nat)
    ensures (x + 1) % KHEAP_PAGES == if x % KHEAP_PAGES + 1 == KHEAP_PAGES then 0 else x % KHEAP_PAGES + 1
  {
    var t, d := x / KHEAP_PAGES, x % KHEAP_PAGES;
    if d + 1 == KHEAP_PAGES {
      RemainderIs(x + 1, t + 1, 0);
    } else {
      RemainderIs(x + 1, t, d + 1);
    }
  }

  lemma RemainderIs(x: nat, t: int, d: nat)
    requires d < KHEAP_PAGES && x == t * KHEAP_PAGES + d
    ensures x % KHEAP_PAGES == d
  {
  }

  /**
   * k heap pages are unmapped from step r on of the walk that starts at page c. The walk ends where it began, except
   * that it does not recognise the end of the heap, as it never looks at the page there.
   */
  ghost predicate FreeRun(tables: Tables, dirs: Dirs, kdir: nat, c: nat, k: nat, r: int) {
    && 0 <= r && (c < KHEAP_MAX ==> r + k <= KHEAP_PAGES)
    && forall j :: r <= j < r + k ==> EntryAt(tables, dirs, kdir, Spin(c, j)) == EMPTY
  }

  /** The first run of k unmapped pages in walking order. */
  ghost predicate FirstRun(tables: Tables, dirs: Dirs, kdir: nat, c: nat, k: nat, r: nat) {
    FreeRun(tables, dirs, kdir, c, k, r) && forall r' :: r' < r ==> !FreeRun(tables, dirs, kdir, c, k, r')
  }

  /** After r steps the last run pages are unmapped, and no run of k begins before them. */
  ghost predicate Walked(tables: Tables, dirs: Dirs, kdir: nat, c: nat, k: nat, r: nat, run: nat) {
    run <= r && FreeRun(tables, dirs, kdir, c, run, r - run) && forall r' :: r' < r - run ==> !FreeRun(tables, dirs, kdir, c, k, r')
  }

  lemma NotWalked(tables: Tables, dirs: Dirs, kdir: nat, c: nat, k: nat)
    requires KHEAP_START <= c <= KHEAP_MAX
    ensures Walked(tables, dirs, kdir, c, k, 0, 0)
  {
  }

  lemma IdlePage(tables: Tables, dirs: Dirs, kdir: nat, c: nat, k: nat, r: nat, run: nat)
    requires KHEAP_START <= c <= KHEAP_MAX && (c < KHEAP_MAX ==> r < KHEAP_PAGES)
    requires Walked(tables, dirs, kdir, c, k, r, run) && EntryAt(tables, dirs, kdir, Spin(c, r)) == EMPTY
    ensures Walked(tables, dirs, kdir, c, k, r + 1, run + 1)
    ensures run + 1 == k ==> FirstRun(tables, dirs, kdir, c, k, r + 1 - k)
  {
    hide EntryAt, Spin;
  }

  /** A mapped page at step r spoils every run that the current one could still grow into. */
  lemma BusyPage(tables: Tables, dirs: Dirs, kdir: nat, c: nat, k: nat, r: nat, run: nat)
    requires KHEAP_START <= c <= KHEAP_MAX && (c < KHEAP_MAX ==> r < KHEAP_PAGES) && run < k
    requires Walked(tables, dirs, kdir, c, k, r, run) && EntryAt(tables, dirs, kdir, Spin(c, r)) != EMPTY
    ensures Walked(tables, dirs, kdir, c, k, r + 1, 0)
  {
    hide EntryAt, Spin;
  }

  lemma TooLate(tables: Tables, dirs: Dirs, kdir: nat, c: nat, k: nat, run: nat)
    requires KHEAP_START <= c < KHEAP_MAX && run < k && Walked(tables, dirs, kdir, c, k, KHEAP_PAGES, run)
    ensures forall r' :: !FreeRun(tables, dirs, kdir, c, k, r')
  {
    hide EntryAt, Spin;
  }

  /** The walk from the end of the heap does not get past the run it is looking for. */
  lemma WalkBounded(tables: Tables, dirs: Dirs, kdir: nat, c: nat, k: nat, r: nat, run: nat, found: nat)
    requires Walked(tables, dirs, kdir, c, k, r, run) && FreeRun(tables, dirs, kdir, c, k, found)
    ensures r - run <= found
  {
    hide EntryAt, Spin, FreeRun;
  }

  /** The pages from the first to the last of a run of k: all k, unless the run goes around the heap. */
  function Span(k: nat): (w: nat)
    requires k > 0
    ensures k <= KHEAP_PAGES ==> w == k
  {
    (k - 1) % KHEAP_PAGES + 1
  }

  /** A run of k pages from step r on of the walk that starts at page c reaches beyond the end of the heap. */
  predicate Crosses(c: nat, r: nat, k: nat) {
    k <= KHEAP_PAGES && Spin(c, r) + k > KHEAP_MAX
  }

  /** A run that goes around the heap leaves no page of it mapped. */
  lemma AllVacant(tables: Tables, dirs: Dirs, kdir: nat, k: nat, r: nat, q: nat)
    requires KHEAP_PAGES <= k && FreeRun(tables, dirs, kdir, KHEAP_MAX, k, r) && KHEAP_START <= q < KHEAP_MAX
    ensures EntryAt(tables, dirs, kdir, q) == EMPTY
  {
    hide EntryAt;
    var j := r + (q - KHEAP_START - r) % KHEAP_PAGES;
    AroundTo(r, q - KHEAP_START);
    assert Spin(KHEAP_MAX, j) == q;
  }

  lemma AroundTo(r: nat, p: nat)
    requires p < KHEAP_PAGES
    ensures (r + (p - r) % KHEAP_PAGES) % KHEAP_PAGES == p
  {
    RemainderIs(r + (p - r) % KHEAP_PAGES, -((p - r) / KHEAP_PAGES), p);
  }

  lemma SpinOn(c: nat, r: nat, j: nat)
    requires KHEAP_START <= c <= KHEAP_MAX && j < KHEAP_PAGES
    ensures Spin(c, r + j) == if Spin(c, r) + j < KHEAP_MAX then Spin(c, r) + j else Spin(c, r) + j - KHEAP_PAGES
  {
  }

  /** A run that does not cross the end of the heap is a block of vacant pages. */
  lemma RunVacant(tables: Tables, dirs: Dirs, kdir: nat, c: nat, k: nat, r: nat)
    requires KHEAP_START <= c <= KHEAP_MAX
    requires k > 0 && FirstRun(tables, dirs, kdir, c, k, r)
    ensures Spin(c, r) <= Spin(c, r + k - 1) <==> !Crosses(c, r, k)
    ensures Spin(c, r) <= Spin(c, r + k - 1) ==> Spin(c, r + k - 1) == Spin(c, r) + Span(k) - 1
    ensures Spin(c, r) <= Spin(c, r + k - 1) ==> Vacant(tables, dirs, kdir, Spin(c, r), Spin(c, r + k - 1))
  {
    hide EntryAt;
    if k <= KHEAP_PAGES {
      SpinOn(c, r, k - 1);
      forall q | Spin(c, r) <= q <= Spin(c, r + k - 1) && Spin(c, r) <= Spin(c, r + k - 1) ensures EntryAt(tables, dirs, kdir, q) == EMPTY {
        SpinOn(c, r, q - Spin(c, r));
      }
    } else {
      assert c == KHEAP_MAX;
      forall q | KHEAP_START <= q < KHEAP_MAX ensures EntryAt(tables, dirs, kdir, q) == EMPTY {
        AllVacant(tables, dirs, kdir, k, r, q);
      }
      assert FreeRun(tables, dirs, kdir, c, k, 0);
    }
  }

  // ---- the walk from the end of the heap, which stops only at a run ----

  /** x / PAGE_SIZE after r steps: how many pages up to there are unmapped. */
  ghost function Run(tables: Tables, dirs: Dirs, kdir: nat, c: nat, r: nat): (run: nat)
    ensures run <= r
  {
    if r == 0 || EntryAt(tables, dirs, kdir, Spin(c, r - 1)) != EMPTY then 0 else Run(tables, dirs, kdir, c, r - 1) + 1
  }

  lemma {:induction false} RunIsFree(tables: Tables, dirs: Dirs, kdir: nat, r: nat)
    ensures var k := Run(tables, dirs, kdir, KHEAP_MAX, r); FreeRun(tables, dirs, kdir, KHEAP_MAX, k, r - k)
  {
    hide EntryAt, Spin;
    if r > 0 { RunIsFree(tables, dirs, kdir, r - 1); }
  }

  lemma {:induction false} FreeIsRun(tables: Tables, dirs: Dirs, kdir: nat, k: nat, r: nat)
    requires FreeRun(tables, dirs, kdir, KHEAP_MAX, k, r)
    ensures Run(tables, dirs, kdir, KHEAP_MAX, r + k) >= k
  {
    hide EntryAt, Spin;
    if k > 0 { FreeIsRun(tables, dirs, kdir, k - 1, r); }
  }

  lemma {:induction false} RunPasses(tables: Tables, dirs: Dirs, kdir: nat, k: nat, r: nat) returns (r': nat)
    requires Run(tables, dirs, kdir, KHEAP_MAX, r) >= k
    ensures Run(tables, dirs, kdir, KHEAP_MAX, r') == k
  {
    hide EntryAt, Spin;
    r' := r;
    if Run(tables, dirs, kdir, KHEAP_MAX, r) > k { r' := RunPasses(tables, dirs, kdir, k, r - 1); }
  }

  /**
   * From the end of the heap the search for k pages stops after some number of steps if and only if there are k
   * unmapped pages in a row, the first page counting as the next one after the last.
   */
  lemma StopsExactly(tables: Tables, dirs: Dirs, kdir: nat, k: nat)
    ensures (exists r: nat :: Run(tables, dirs, kdir, KHEAP_MAX, r) == k)
       <==> exists r: nat :: r < KHEAP_PAGES && FreeRun(tables, dirs, kdir, KHEAP_MAX, k, r)
  {
    hide EntryAt, Spin, FreeRun, Run;
    if r: nat :| Run(tables, dirs, kdir, KHEAP_MAX, r) == k {
      RunIsFree(tables, dirs, kdir, r);
      FirstLap(tables, dirs, kdir, k, r - k);
    }
    if r: nat :| FreeRun(tables, dirs, kdir, KHEAP_MAX, k, r) {
      FreeIsRun(tables, dirs, kdir, k, r);
      var r' := RunPasses(tables, dirs, kdir, k, r + k);
    }
  }

  /** Every lap is like the first. */
  lemma FirstLap(tables: Tables, dirs: Dirs, kdir: nat, k: nat, r: nat)
    requires FreeRun(tables, dirs, kdir, KHEAP_MAX, k, r)
    ensures FreeRun(tables, dirs, kdir, KHEAP_MAX, k, r % KHEAP_PAGES) && r % KHEAP_PAGES < KHEAP_PAGES
  {
    hide EntryAt;
    var p := r % KHEAP_PAGES;
    forall j | p <= j < p + k ensures EntryAt(tables, dirs, kdir, Spin(KHEAP_MAX, j)) == EMPTY {
      SameLap(r, j - p);
      assert r <= r + (j - p) < r + k;
    }
  }

  lemma SameLap(r: nat, j: nat)
    ensures Spin(KHEAP_MAX, r % KHEAP_PAGES + j) == Spin(KHEAP_MAX, r + j)
  {
    ModAdds(r, j);
  }

  lemma ModAdds(r: nat, j: nat)
    ensures (r % KHEAP_PAGES + j) % KHEAP_PAGES == (r + j) % KHEAP_PAGES
  {
    var x := r % KHEAP_PAGES + j;
    RemainderIs(r + j, r / KHEAP_PAGES + x / KHEAP_PAGES, x % KHEAP_PAGES);
  }

  lemma BlockStarts(tables: Tables, dirs: Dirs, kdir: nat, lo: nat, hi: nat)
    requires lo < PAGES
    ensures SameOutside(tables, dirs, tables, dirs, lo, hi) && MapsFrames(tables, dirs, kdir, lo, [])
  {
  }

  /** Pages outside [lo, hi] have the entries they had. */
  ghost predicate SameOutside(tables: Tables, dirs: Dirs, tables': Tables, dirs': Dirs, lo: nat, hi: nat) {
    forall d', p' :: IsPage(dirs, d', p') && IsPage(dirs', d', p') && !(lo <= p' <= hi) ==>
      EntryAt(tables', dirs', d', p') == EntryAt(tables, dirs, d', p')
  }

  /** map_frame finds the frame mapped at the page and returns. */
  predicate Already(e: Entry, f: nat) { Present in e.perm && e.frame == f }

  /** map_frame on a present page of another frame unmaps that one first; it does not look at a buffered one. */
  function Remapped(s: Pool, e: Entry, f: nat): (s': Pool)
    requires f < |s.refs| == |s.buffered| && (Present in e.perm ==> e.frame < |s.refs| && s.refs[e.frame] > 0)
  {
    Mapped(if Present in e.perm then Unmapped(s, e.frame) else s, f)
  }

  /** The page's new frame gains a reference and its old one loses it, and is the next to be allocated if that was its last. */
  lemma RemapCounts(s: Pool, e: Entry, f: nat, g: nat)
    requires f < |s.refs| == |s.buffered| && g < |s.refs| && !Already(e, f)
    requires Present in e.perm ==> e.frame < |s.refs| && s.refs[e.frame] > 0
    ensures var s' := Remapped(s, e, f);
      && |s'.refs| == |s.refs| && s'.modified == s.modified
      && s'.refs[g] == s.refs[g] + (if g == f then 1 else if Present in e.perm && g == e.frame then -1 else 0)
      && s'.free == if Present in e.perm && s.refs[e.frame] == 1 then [e.frame] + s.free else s.free
  {
  }

  /** The free list has not become shorter, and no frame has become buffered. */
  ghost predicate MoreFree(s: Pool, s': Pool) {
    && |s'.free| >= |s.free| && |s'.buffered| == |s.buffered|
    && forall f :: 0 <= f < |s.buffered| && s'.buffered[f] ==> s.buffered[f]
  }

  lemma NoMoreFree(s: Pool)
    ensures MoreFree(s, s)
  {
  }

  lemma UnmapFreesMore(start: Pool, s: Pool, f: nat)
    requires MoreFree(start, s) && f < |s.refs| == |s.buffered| && s.refs[f] > 0
    ensures MoreFree(start, Unmapped(s, f))
  {
  }

  /** PHYS_IO_MEM / PAGE_SIZE and PHYS_EXTENDED_MEM / PAGE_SIZE. */
  const IO_FRAME := 160
  const EXTENDED_FRAME := 256

  /** hi - 1, ..., lo: what inserting lo to hi - 1 at the head of a list one by one leaves there. */
  function Descending(lo: nat, hi: nat): (s: seq<nat>)
    requires lo <= hi
    ensures |s| == hi - lo && forall i :: 0 <= i < |s| ==> s[i] == hi - 1 - i
  {
    if lo == hi then [] else [hi - 1] + Descending(lo, hi - 1)
  }

  /** The boot-time directory: the table of the kernel stack, which USER_LIMIT falls into, and those of the heap. */
  function KernelDirectory(bootTables: seq<nat>): (dir: Table)
    requires |bootTables| == 1 + ENTRIES - Pdx(KHEAP_START)
    ensures |dir| == ENTRIES && forall i :: 0 <= i < USER_TOP_PDX ==> dir[i] == EMPTY
    ensures forall i :: 0 <= i < ENTRIES ==> dir[i] == EMPTY || (dir[i].frame in bootTables && Present in dir[i].perm)
    ensures forall i :: Pdx(KHEAP_START) <= i < ENTRIES ==> dir[i] == Entry(bootTables[i - Pdx(KHEAP_START) + 1], {Present, Writeable})
    ensures dir[Pdx(USER_LIMIT_PAGE)] == Entry(bootTables[0], {Present, Writeable})
  {
    var dir := seq(ENTRIES, i requires 0 <= i < ENTRIES =>
      if i == Pdx(USER_LIMIT_PAGE) then Entry(bootTables[0], {Present, Writeable})
      else if i >= Pdx(KHEAP_START) then Entry(bootTables[i - Pdx(KHEAP_START) + 1], {Present, Writeable})
      else EMPTY);
    assert forall i | 0 <= i < ENTRIES ::
        dir[i] == EMPTY
        || (i == Pdx(USER_LIMIT_PAGE) && dir[i].frame == bootTables[0])
        || (i >= Pdx(KHEAP_START) && dir[i].frame == bootTables[i - Pdx(KHEAP_START) + 1]);
    dir
  }

  function NoneBuffered(n: nat): seq<bool> { seq(n, _ => false) }

  function NoReferences(n: nat): (s: seq<uint16>)
    ensures |s| == n
  {
    seq(n, _ => 0)
  }

  function ZeroTables(frames: seq<nat>): Tables { map t | t in frames :: seq(ENTRIES, _ => EMPTY) }

  lemma BlankTables(tables: Tables, f: nat)
    requires forall t, i :: t in tables && 0 <= i < |tables[t]| ==> tables[t][i] == EMPTY
    ensures Holders(tables, f) == {}
  {
  }

  /** Right after boot no entry holds a frame, so every reference is one the boot code gave. */
  lemma BootFramesOk(n: nat, s: Pool, tables: Tables)
    requires Sized(n, s) && s.boot == s.refs && s.inHand == {} && s.modified == [] && NoDuplicates(s.free)
    requires forall f :: f in s.free ==> f < n
    requires forall f :: 0 <= f < n ==> !s.buffered[f] && (s.refs[f] == 0 <==> f in s.free)
    requires forall t, i :: t in tables && 0 <= i < |tables[t]| ==> tables[t][i] == EMPTY
    ensures Ok(n, s, tables)
  {
    forall f: nat ensures Holders(tables, f) == {} {
      BlankTables(tables, f);
    }
  }

  lemma FreeAtBoot(kernelEnd: nat, frames: nat)
    requires EXTENDED_FRAME <= kernelEnd <= frames
    ensures var free := Descending(kernelEnd, frames) + Descending(3, IO_FRAME);
      && NoDuplicates(free)
      && forall f :: f in free <==> kernelEnd <= f < frames || 3 <= f < IO_FRAME
  {
    var high, low := Descending(kernelEnd, frames), Descending(3, IO_FRAME);
    forall f | kernelEnd <= f < frames ensures f in high {
      assert high[frames - 1 - f] == f;
    }
    forall f | 3 <= f < IO_FRAME ensures f in low {
      assert low[IO_FRAME - 1 - f] == f;
    }
  }

  lemma BootPoolOk(kernelEnd: nat, frames: nat, refs: seq<nat>, bootTables: seq<nat>)
    requires EXTENDED_FRAME <= kernelEnd <= frames == |refs|
    requires forall f :: 0 <= f < frames ==> refs[f] == if kernelEnd <= f || 3 <= f < IO_FRAME then 0 else 1
    ensures var free := Descending(kernelEnd, frames) + Descending(3, IO_FRAME);
      && Ok(frames, Pool(refs, NoneBuffered(frames), free, [], refs, {}), ZeroTables(bootTables))
      && forall f :: 0 <= f < frames ==> (refs[f] == 0 <==> f in free)
  {
    FreeAtBoot(kernelEnd, frames);
    var free := Descending(kernelEnd, frames) + Descending(3, IO_FRAME);
    BootFramesOk(frames, Pool(refs, NoneBuffered(frames), free, [], refs, {}), ZeroTables(bootTables));
  }

  lemma BootStructure(n: nat, boot: seq<nat>, tables: Tables, kdir: nat, bootTables: seq<nat>)
    requires |bootTables| == 1 + ENTRIES - Pdx(KHEAP_START) && NoDuplicates(bootTables)
    requires tables == ZeroTables(bootTables)
    requires |boot| == n && kdir < n && boot[kdir] > 0 && forall t :: t in bootTables ==> t < n && boot[t] > 0
    ensures Structured(n, boot, tables, map[kdir := KernelDirectory(bootTables)], kdir, map[])
  {
    var dirs := map[kdir := KernelDirectory(bootTables)];
    assert Shape(n, tables, dirs) && Separate(dirs);
    forall q | IsHeapPage(q) ensures HasTable(dirs, kdir, q) && EntryAt(tables, dirs, kdir, q) == EMPTY {
      assert dirs[kdir][Pdx(q)].frame in bootTables;
    }
  }

  /** The permissions of every kernel-heap page. */
  const KERNEL_PERM: set<Perm> := {Present, Writeable}

  /** The heap pages from lo to hi are unmapped. */
  ghost predicate Vacant(tables: Tables, dirs: Dirs, kdir: nat, lo: nat, hi: int) {
    forall q :: lo <= q <= hi && IsHeapPage(q) ==> EntryAt(tables, dirs, kdir, q) == EMPTY
  }

  /** Pages from lo on map the given frames, in order, for the kernel. */
  ghost predicate MapsFrames(tables: Tables, dirs: Dirs, kdir: nat, lo: nat, frames: seq<nat>) {
    lo + |frames| <= PAGES
    && forall i :: 0 <= i < |frames| ==> EntryAt(tables, dirs, kdir, lo + i) == Entry(frames[i], {Present, Writeable})
  }

  /** The pages of a block are present and writeable, for the kernel alone. */
  ghost predicate KernelsOwn(tables: Tables, dirs: Dirs, kdir: nat, lo: nat, k: nat) {
    forall q :: lo <= q < lo + k ==>
      var perm := EntryAt(tables, dirs, kdir, q).perm; Present in perm && Writeable in perm && User !in perm
  }

  lemma MappedForKernel(tables: Tables, dirs: Dirs, kdir: nat, lo: nat, frames: seq<nat>)
    requires MapsFrames(tables, dirs, kdir, lo, frames)
    ensures KernelsOwn(tables, dirs, kdir, lo, |frames|)
  {
    hide EntryAt;
    forall q | lo <= q < lo + |frames| ensures EntryAt(tables, dirs, kdir, q).perm == {Present, Writeable} {
      assert EntryAt(tables, dirs, kdir, lo + (q - lo)) == Entry(frames[q - lo], {Present, Writeable});
    }
  }

  lemma BlockGrows(start: Tables, before: Tables, after: Tables, dirs: Dirs, kdir: nat, lo: nat, hi: nat,
                   frames: seq<nat>, f: nat)
    requires IsPage(dirs, kdir, 0)
    requires KHEAP_START <= lo <= lo + |frames| <= hi < KHEAP_MAX
    requires SameOutside(start, dirs, before, dirs, lo, hi)
    requires Vacant(before, dirs, kdir, lo + |frames|, hi) && MapsFrames(before, dirs, kdir, lo, frames)
    requires SameElsewhere(before, dirs, after, dirs, kdir, lo + |frames|)
    requires EntryAt(after, dirs, kdir, lo + |frames|) == Entry(f, {Present, Writeable})
    ensures SameOutside(start, dirs, after, dirs, lo, hi)
    ensures Vacant(after, dirs, kdir, lo + |frames| + 1, hi)
    ensures MapsFrames(after, dirs, kdir, lo, frames + [f])
  {
    hide EntryAt;
    forall i | 0 <= i < |frames| + 1
      ensures EntryAt(after, dirs, kdir, lo + i) == Entry((frames + [f])[i], {Present, Writeable})
    {
      if i < |frames| { assert IsPage(dirs, kdir, lo + i); }
    }
  }

  ghost predicate Untouched(start: Tables, tables: Tables, dirs: Dirs, kdir: nat, lo: nat, hi: nat) {
    forall q :: lo <= q <= hi && IsHeapPage(q) ==> EntryAt(tables, dirs, kdir, q) == EntryAt(start, dirs, kdir, q)
  }

  /** Emptying page p of the block moves the front of the emptied part on. */
  lemma BlockShrinks(start: Tables, before: Tables, after: Tables, dirs: Dirs, kdir: nat, lo: nat, hi: nat, p: nat)
    requires IsPage(dirs, kdir, 0) && lo <= p <= hi < PAGES && lo >= USER_TOP_PAGE
    requires SameOutside(start, dirs, before, dirs, lo, hi) && SameElsewhere(before, dirs, after, dirs, kdir, p)
    requires EntryAt(after, dirs, kdir, p) == EMPTY
    requires Untouched(start, before, dirs, kdir, p, hi) && Vacant(before, dirs, kdir, lo, p - 1)
    ensures SameOutside(start, dirs, after, dirs, lo, hi)
    ensures Untouched(start, after, dirs, kdir, p + 1, hi) && Vacant(after, dirs, kdir, lo, p)
  {
    hide EntryAt;
    forall q | lo <= q <= hi && q != p ensures EntryAt(after, dirs, kdir, q) == EntryAt(before, dirs, kdir, q) {
      assert IsPage(dirs, kdir, q);
    }
  }

  lemma OnePageRun(tables: Tables, dirs: Dirs, kdir: nat, c: nat, r: nat)
    requires KHEAP_START <= c <= KHEAP_MAX
    requires FirstRun(tables, dirs, kdir, c, 1, r)
    ensures EntryAt(tables, dirs, kdir, Spin(c, r)) == EMPTY && !Crosses(c, r, 1)
  {
    hide EntryAt;
  }

  lemma FirstMapped(tables: Tables, dirs: Dirs, kdir: nat, lo: nat, frames: seq<nat>)
    requires |frames| > 0 && MapsFrames(tables, dirs, kdir, lo, frames)
    ensures EntryAt(tables, dirs, kdir, lo) == Entry(frames[0], {Present, Writeable})
  {
    hide EntryAt;
    assert EntryAt(tables, dirs, kdir, lo + 0) == Entry(frames[0], {Present, Writeable});
  }

  /** Linking a table of zeros, homed at heap page h, changes no entry of any page. */
  lemma NewTableKeepsStructure(n: nat, boot: seq<nat>, start: Tables, tables: Tables, dirs: Dirs, kdir: nat,
                               home: map<nat, nat>, d: nat, page: nat, t: nat, h: nat)
    requires Structured(n, boot, tables, dirs, kdir, home) && Shape(n, start, dirs)
    requires IsPage(dirs, d, page) && page < USER_TOP_PAGE && !HasTable(dirs, d, page)
    requires t < n && t !in tables && t !in dirs && KHEAP_START <= h < KHEAP_MAX
    requires Holds(EntryAt(tables, dirs, kdir, h), t) && SameOutside(start, dirs, tables, dirs, h, h)
    ensures var dirs' := dirs[d := dirs[d][Pdx(page) := Entry(t, {Present, Writeable, User})]];
      var tables' := tables[t := seq(ENTRIES, _ => EMPTY)];
      && Structured(n, boot, tables', dirs', kdir, home[t := h])
      && SameOutside(start, dirs, tables', dirs', h, h)
      && EntryAt(tables', dirs', kdir, h) == EntryAt(tables, dirs, kdir, h)
  {
    var dirs' := dirs[d := dirs[d][Pdx(page) := Entry(t, {Present, Writeable, User})]];
    var tables' := tables[t := seq(ENTRIES, _ => EMPTY)];
    NewTableShape(n, tables, dirs, d, Pdx(page), t);
    NewTableIsBlank(n, tables, dirs, d, page, t);
    assert SameOutside(start, dirs, tables', dirs', h, h) by {
      hide EntryAt, Structured;
    }
    NewTableIsHomed(n, boot, tables, dirs, kdir, home, d, page, t, h);
    assert HeapInjective(tables', dirs', kdir) by {
      hide EntryAt, Homed, Separate;
      forall q: nat | IsHeapPage(q) ensures HasTable(dirs', kdir, q) && IsPage(dirs', kdir, q) {
        assert HasTable(dirs, kdir, q) && Pdx(q) != Pdx(page);
      }
    }
    hide HeapInjective, Homed, Separate, EntryAt, SameOutside;
  }

  lemma NewTableIsHomed(n: nat, boot: seq<nat>, tables: Tables, dirs: Dirs, kdir: nat,
                        home: map<nat, nat>, d: nat, page: nat, t: nat, h: nat)
    requires Structured(n, boot, tables, dirs, kdir, home)
    requires IsPage(dirs, d, page) && page < USER_TOP_PAGE && !HasTable(dirs, d, page)
    requires t < n && t !in tables && t !in dirs && KHEAP_START <= h < KHEAP_MAX
    requires Holds(EntryAt(tables, dirs, kdir, h), t)
    ensures Homed(n, boot, tables[t := seq(ENTRIES, _ => EMPTY)],
                  dirs[d := dirs[d][Pdx(page) := Entry(t, {Present, Writeable, User})]], kdir, home[t := h])
  {
    hide HeapInjective, Separate, EntryAt;
    NewTableIsBlank(n, tables, dirs, d, page, t);
  }

  /** Pages of the directories that were there before. */
  lemma OtherDirectories(start: Tables, dirs: Dirs, tables: Tables, dirs': Dirs, d: nat, h: nat)
    requires SameOutside(start, dirs, tables, dirs, h, h) && d !in dirs && dirs'.Keys == dirs.Keys + {d}
    requires forall d', p' :: d' != d ==> EntryAt(tables, dirs', d', p') == EntryAt(tables, dirs, d', p')
    ensures SameOutside(start, dirs, tables, dirs', h, h)
  {
    hide EntryAt;
  }

  /** A directory whose user part is 0 and whose kernel part is the kernel's. */
  function UserDirectory(kernel: Table): (dir: Table)
    requires |kernel| == ENTRIES
    ensures |dir| == ENTRIES && forall i :: 0 <= i < ENTRIES ==> dir[i] == if i < USER_TOP_PDX then EMPTY else kernel[i]
  {
    seq(ENTRIES, i requires 0 <= i < ENTRIES => if i < USER_TOP_PDX then EMPTY else kernel[i])
  }

  lemma NewDirectoryIsBlank(tables: Tables, dirs: Dirs, kdir: nat, d: nat)
    requires kdir in dirs && |dirs[kdir]| == ENTRIES
    ensures var dirs' := dirs[d := UserDirectory(dirs[kdir])];
      && (forall d', p' :: d' != d ==> EntryAt(tables, dirs', d', p') == EntryAt(tables, dirs, d', p'))
      && (forall p' :: 0 <= p' < USER_TOP_PAGE ==> !HasTable(dirs', d, p'))
  {
  }

  lemma NewDirectoryKeepsStructure(n: nat, boot: seq<nat>, tables: Tables, dirs: Dirs, kdir: nat,
                                   home: map<nat, nat>, d: nat, h: nat)
    requires Structured(n, boot, tables, dirs, kdir, home)
    requires d < n && d !in tables && d !in dirs && KHEAP_START <= h < KHEAP_MAX
    requires Holds(EntryAt(tables, dirs, kdir, h), d)
    ensures var dirs' := dirs[d := UserDirectory(dirs[kdir])];
      && Structured(n, boot, tables, dirs', kdir, home[d := h])
      && (forall d', p' :: d' != d ==> EntryAt(tables, dirs', d', p') == EntryAt(tables, dirs, d', p'))
      && (forall p' :: 0 <= p' < USER_TOP_PAGE ==> !HasTable(dirs', d, p'))
  {
    hide Shape, Separate, HeapInjective, Homed, EntryAt, UserDirectory;
    assert |dirs[kdir]| == ENTRIES by { KernelDirectorySize(n, tables, dirs, kdir); }
    NewDirectoryIsBlank(tables, dirs, kdir, d);
    NewDirectoryShape(n, tables, dirs, kdir, d);
    NewDirectoryHeap(tables, dirs, kdir, d);
    NewDirectoryHomed(n, boot, tables, dirs, kdir, home, d, h);
  }

  lemma KernelDirectorySize(n: nat, tables: Tables, dirs: Dirs, kdir: nat)
    requires Shape(n, tables, dirs) && kdir in dirs
    ensures |dirs[kdir]| == ENTRIES
  {
  }

  lemma NewDirectoryHeap(tables: Tables, dirs: Dirs, kdir: nat, d: nat)
    requires HeapInjective(tables, dirs, kdir) && d !in dirs && |dirs[kdir]| == ENTRIES
    ensures HeapInjective(tables, dirs[d := UserDirectory(dirs[kdir])], kdir)
  {
    var dirs' := dirs[d := UserDirectory(dirs[kdir])];
    NewDirectoryIsBlank(tables, dirs, kdir, d);
    hide EntryAt, UserDirectory;
    forall q: nat | IsHeapPage(q)
      ensures HasTable(dirs', kdir, q) && EntryAt(tables, dirs', kdir, q) == EntryAt(tables, dirs, kdir, q)
    {
      assert HasTable(dirs, kdir, q);
    }
  }

  lemma NewDirectoryHomed(n: nat, boot: seq<nat>, tables: Tables, dirs: Dirs, kdir: nat, home: map<nat, nat>, d: nat, h: nat)
    requires Homed(n, boot, tables, dirs, kdir, home) && kdir in dirs && |dirs[kdir]| == ENTRIES && d !in dirs && d !in tables
    requires KHEAP_START <= h < KHEAP_MAX && Holds(EntryAt(tables, dirs, kdir, h), d)
    ensures Homed(n, boot, tables, dirs[d := UserDirectory(dirs[kdir])], kdir, home[d := h])
  {
    NewDirectoryIsBlank(tables, dirs, kdir, d);
    hide EntryAt;
  }

  lemma NewDirectoryShape(n: nat, tables: Tables, dirs: Dirs, kdir: nat, d: nat)
    requires Shape(n, tables, dirs) && Separate(dirs) && kdir in dirs && d !in dirs
    ensures Shape(n, tables, dirs[d := UserDirectory(dirs[kdir])]) && Separate(dirs[d := UserDirectory(dirs[kdir])])
  {
    var dirs' := dirs[d := UserDirectory(dirs[kdir])];
    forall d1, i | d1 in dirs' && 0 <= i < |dirs'[d1]| && dirs'[d1][i] != EMPTY
      ensures var k := if d1 == d then kdir else d1;
        dirs'[d1][i] == dirs[k][i] && (d1 == d ==> i >= USER_TOP_PDX)
    {
    }
  }

  lemma NewTableShape(n: nat, tables: Tables, dirs: Dirs, d: nat, i: nat, t: nat)
    requires Shape(n, tables, dirs) && Separate(dirs) && d in dirs && i < USER_TOP_PDX && dirs[d][i] == EMPTY
    requires t < n && t !in tables
    ensures var dirs' := dirs[d := dirs[d][i := Entry(t, {Present, Writeable, User})]];
      Shape(n, tables[t := seq(ENTRIES, _ => EMPTY)], dirs') && Separate(dirs')
  {
    var dirs' := dirs[d := dirs[d][i := Entry(t, {Present, Writeable, User})]];
    forall d1, i1 | d1 in dirs' && 0 <= i1 < |dirs'[d1]| && (d1 != d || i1 != i)
      ensures dirs'[d1][i1] == dirs[d1][i1] && (dirs'[d1][i1] != EMPTY ==> dirs'[d1][i1].frame in tables)
    {
      assert dirs'[d1][i1] == dirs[d1][i1];
    }
  }

  lemma NewTableIsBlank(n: nat, tables: Tables, dirs: Dirs, d: nat, page: nat, t: nat)
    requires Shape(n, tables, dirs) && IsPage(dirs, d, page) && !HasTable(dirs, d, page) && t !in tables
    ensures var dirs' := dirs[d := dirs[d][Pdx(page) := Entry(t, {Present, Writeable, User})]];
      var tables' := tables[t := seq(ENTRIES, _ => EMPTY)];
      Shape(n, tables', dirs') && forall d', p' :: IsPage(dirs', d', p') ==>
        IsPage(dirs, d', p') && EntryAt(tables', dirs', d', p') == EntryAt(tables, dirs, d', p')
  {
    var blank := seq(ENTRIES, _ => EMPTY);
    var dirs' := dirs[d := dirs[d][Pdx(page) := Entry(t, {Present, Writeable, User})]];
    var tables' := tables[t := blank];
    forall d', p' | IsPage(dirs', d', p')
      ensures EntryAt(tables', dirs', d', p') == EntryAt(tables, dirs, d', p')
    {
      if d' == d && Pdx(p') == Pdx(page) {
        assert EntryAt(tables', dirs', d', p') == blank[Ptx(p')];
      } else {
        assert dirs'[d'][Pdx(p')] == dirs[d'][Pdx(p')];
      }
    }
  }

  /** Pages other than this one, and than heap page h, have the entries they had. */
  ghost predicate SameBeside(tables: Tables, dirs: Dirs, tables': Tables, dirs': Dirs, d: nat, page: nat, h: nat) {
    forall d', p' :: IsPage(dirs, d', p') && IsPage(dirs', d', p') && p' != h && (p' != page || d' != d) ==>
      EntryAt(tables', dirs', d', p') == EntryAt(tables, dirs, d', p')
  }

  /** One entry of kHeapArr: where the block starts and the address of its last page. */
  datatype HeapBlock = HeapBlock(first: uint32, last: uint32)

  ghost predicate InHeap(b: HeapBlock) {
    && b.first % PAGE_SIZE == 0 && b.last % PAGE_SIZE == 0
    && KHEAP_START * PAGE_SIZE <= b.first < KHEAP_MAX * PAGE_SIZE
    && KHEAP_START * PAGE_SIZE <= b.last < KHEAP_MAX * PAGE_SIZE
  }

  /** The last page of the block kfree takes for the one at va: the newest entry that starts there. */
  function NewestBlock(blocks: seq<HeapBlock>, va: uint32): (b: seq<HeapBlock>)
    ensures |b| <= 1 && (b == [] ==> forall i :: 0 <= i < |blocks| ==> blocks[i].first != va)
    ensures b != [] ==> exists i :: 0 <= i < |blocks| && blocks[i] == b[0] && b[0].first == va
                                    && forall j :: i < j < |blocks| ==> blocks[j].first != va
  {
    if blocks == [] then []
    else if blocks[|blocks| - 1].first == va then [blocks[|blocks| - 1]]
    else NewestBlock(blocks[..|blocks| - 1], va)
  }

  ghost predicate Reaches(dirs: Dirs, home: map<nat, nat>, startAdd: int, d: nat, page: nat) {
    page < USER_TOP_PAGE && HasTable(dirs, d, page) ==>
      dirs[d][Pdx(page)].frame in home && home[dirs[d][Pdx(page)].frame] * PAGE_SIZE < startAdd
  }

  class Memory {
    /** number_of_frames, and the frame of the kernel's page directory. */
    const n: nat
    const kdir: nat
    /** The references and isBuffered fields of frames_info. */
    var references: seq<uint16>
    var isBuffered: seq<bool>
    var freeList: seq<nat>
    var modifiedList: seq<nat>
    var tables: Tables
    var dirs: Dirs
    /** The next-fit cursor of the kernel heap. */
    var startAdd: uint32
    /** kHeapArr up to IDX: a block is never taken out, also not when it is freed. */
    var blocks: seq<HeapBlock>
    ghost var boot: seq<nat>
    ghost var inHand: set<nat>
    ghost var home: map<nat, nat>

    ghost function Frames(): Pool
      reads this
    {
      Pool(references, isBuffered, freeList, modifiedList, boot, inHand)
    }

    /** What walking the page tables relies on. */
    ghost predicate Laid()
      reads this
    {
      && Structured(n, boot, tables, dirs, kdir, home)
      && startAdd % PAGE_SIZE == 0 && KHEAP_START * PAGE_SIZE <= startAdd <= KHEAP_MAX * PAGE_SIZE
      && forall b :: b in blocks ==> InHeap(b)
    }

    ghost predicate Valid()
      reads this
    {
      Ok(n, Frames(), tables) && Laid()
    }

    /** What is left of Valid once the code has lost count of a buffered frame. */
    ghost predicate Tallied()
      reads this
    {
      AtLeast(n, Frames(), tables) && Laid()
    }

    lemma ValidIsTallied()
      requires Valid()
      ensures Tallied()
    {
      hide Ok, Structured;
      OkIsAtLeast(n, Frames(), tables);
    }

    ghost function At(d: nat, page: nat): Entry
      reads this
    {
      EntryAt(tables, dirs, d, page)
    }

    /** kheap_virtual_address finds the table of this page: it looks only below the cursor. */
    ghost predicate Reachable(d: nat, page: nat)
      reads this
    {
      Reaches(dirs, home, startAdd, d, page)
    }

    /** The entry the kernel finds for the page: 0 when it does not find the table. */
    ghost function Seen(d: nat, page: nat): Entry
      reads this
    {
      if Reachable(d, page) then At(d, page) else EMPTY
    }

    /** The table of a user page sits at its home in the kernel heap. */
    lemma UserTableHome(d: nat, page: nat)
      requires Laid() && IsPage(dirs, d, page) && page < USER_TOP_PAGE && HasTable(dirs, d, page)
      ensures var t := dirs[d][Pdx(page)].frame;
        t in home && KHEAP_START <= home[t] < KHEAP_MAX && IsPage(dirs, kdir, home[t]) && Holds(At(kdir, home[t]), t) && t < n
    {
      hide Ok, Separate;
    }

    /**
     * initialize_paging: frames 0 to 2, the I/O hole and the kernel, which ends at kernelEnd, keep
     * one reference; the rest is free. bootTables holds the frames of the tables that exist from
     * boot, those of the kernel stack and of the kernel heap.
     */
    constructor Boot(frames: nat, kernelEnd: nat, kernelDir: nat, bootTables: seq<nat>)
      requires EXTENDED_FRAME <= kernelEnd <= frames && EXTENDED_FRAME <= kernelDir < kernelEnd
      requires |bootTables| == 1 + ENTRIES - Pdx(KHEAP_START) && NoDuplicates(bootTables)
      requires forall i :: 0 <= i < |bootTables| ==> EXTENDED_FRAME <= bootTables[i] < kernelEnd && bootTables[i] != kernelDir
      ensures Valid() && n == frames && kdir == kernelDir && inHand == {} && modifiedList == []
      ensures freeList == Descending(kernelEnd, frames) + Descending(3, IO_FRAME)
      ensures forall f :: 0 <= f < frames ==> references[f] == if f in freeList then 0 else 1
      ensures forall f :: f in freeList <==> kernelEnd <= f < frames || 0x3000 <= f * PAGE_SIZE < 0xA_0000
      ensures dirs == map[kernelDir := KernelDirectory(bootTables)] && startAdd == KHEAP_START * PAGE_SIZE && blocks == []
      ensures tables == ZeroTables(bootTables) && home == map[] && isBuffered == NoneBuffered(frames)
    {
      hide Ok, Structured, Descending, KernelDirectory, NoneBuffered, NoReferences, ZeroTables;
      n, kdir := frames, kernelDir;
      isBuffered, modifiedList := NoneBuffered(frames), [];
      dirs := map[kernelDir := KernelDirectory(bootTables)];
      tables := ZeroTables(bootTables);
      startAdd, blocks := KHEAP_START * PAGE_SIZE, [];
      inHand, home := {}, map[];
      references := NoReferences(frames);
      freeList := [];
      new;
      InitializeFrames(kernelEnd);
      boot := references;
      BootPoolOk(kernelEnd, frames, references, bootTables);
      FreeAtBoot(kernelEnd, frames);
      BootStructure(n, boot, tables, kdir, bootTables);
    }

    method InitializeFrames(kernelEnd: nat)
      requires EXTENDED_FRAME <= kernelEnd <= |references| && freeList == []
      modifies this`references, this`freeList
      ensures |references| == |old(references)|
      ensures freeList == Descending(kernelEnd, |references|) + Descending(3, IO_FRAME)
      ensures forall f :: 0 <= f < |references| ==>
                references[f] == if kernelEnd <= f || 3 <= f < IO_FRAME then 0 else 1
    {
      HoldRange(0, 3);
      FreeRange(3, IO_FRAME);
      HoldRange(IO_FRAME, EXTENDED_FRAME);
      HoldRange(EXTENDED_FRAME, kernelEnd);
      FreeRange(kernelEnd, |references|);
    }

    /** A loop of initialize_paging that keeps frames lo to hi - 1 back. */
    method HoldRange(lo: nat, hi: nat)
      requires lo <= hi <= |references|
      modifies this`references
      ensures |references| == |old(references)|
      ensures forall f :: 0 <= f < |references| ==> references[f] == if lo <= f < hi then 1 else old(references)[f]
    {
      for i := lo to hi
        invariant |references| == |old(references)|
        invariant forall f :: 0 <= f < |references| ==> references[f] == if lo <= f < i then 1 else old(references)[f]
      {
        references := references[i := 1];
      }
    }

    /** A loop of initialize_paging: initialize_frame_info and LIST_INSERT_HEAD for frames lo to hi - 1. */
    method FreeRange(lo: nat, hi: nat)
      requires lo <= hi <= |references|
      modifies this`references, this`freeList
      ensures |references| == |old(references)|
      ensures forall f :: 0 <= f < |references| ==> references[f] == if lo <= f < hi then 0 else old(references)[f]
      ensures freeList == Descending(lo, hi) + old(freeList)
    {
      for i := lo to hi
        invariant |references| == |old(references)|
        invariant forall f :: 0 <= f < |references| ==> references[f] == if lo <= f < i then 0 else old(references)[f]
        invariant freeList == Descending(lo, i) + old(freeList)
      {
        references := references[i := 0];
        freeList := [i] + freeList;
      }
    }

    method AllocateFrame() returns (f: nat)
      requires Valid() && CanAllocate(Frames())
      modifies this`references, this`isBuffered, this`freeList, this`inHand
      ensures Valid()
      ensures f == old(freeList)[0] && Frames() == Allocated(old(Frames()))
      ensures references == old(references) && isBuffered == old(isBuffered)
      ensures |references| == n == |isBuffered| && f < n && references[f] == 0 && Holders(tables, f) == {} && f !in old(inHand)
    {
      hide Ok, Structured;
      AllocateKeepsOk(n, Frames(), tables);
      f := freeList[0];
      freeList := freeList[1..];
      references, isBuffered := references[f := 0], isBuffered[f := false];
      inHand := inHand + {f};
    }

    /**
     * get_page_table: a user table is reached through its kernel-heap address. found says that *ptr_page_table is
     * not NULL, which it is for a missing table and for one that kheap_virtual_address does not find.
     */
    method GetPageTable(d: nat, va: uint32) returns (found: bool, t: nat)
      requires Laid() && IsPage(dirs, d, va / PAGE_SIZE)
      ensures found == (HasTable(dirs, d, va / PAGE_SIZE) && Reachable(d, va / PAGE_SIZE))
      ensures found ==> t == dirs[d][Pdx(va / PAGE_SIZE)].frame
      decreases if va / PAGE_SIZE < USER_TOP_PAGE then 3 else 0
    {
      hide Ok, Separate, HeapInjective, Homed, EntryAt;
      var pde := dirs[d][Pdx(va / PAGE_SIZE)];
      t := 0;
      if Present !in pde.perm {
        return false, 0;
      }
      found := true;
      if va / PAGE_SIZE < USER_TOP_PAGE {
        UserTableHome(d, va / PAGE_SIZE);
        var pointer := KheapVirtualAddress(pde.frame * PAGE_SIZE);
        assert Holds(At(kdir, home[pde.frame]), pde.frame * PAGE_SIZE / PAGE_SIZE);
        if pointer == 0 {
          return false, 0;
        }
        OneHeapPage(pointer / PAGE_SIZE, home[pde.frame], pde.frame);
        t := KheapPhysicalAddress(pointer);
        t := t / PAGE_SIZE;
      } else {
        t := pde.frame;
      }
    }

    lemma OneHeapPage(q: nat, r: nat, f: nat)
      requires Laid() && KHEAP_START <= q <= KHEAP_MAX && KHEAP_START <= r <= KHEAP_MAX
      requires Holds(At(kdir, q), f) && Holds(At(kdir, r), f)
      ensures q == r
    {
      hide Separate, Homed, EntryAt;
    }

    /** get_frame_info: the entry itself stands for the frame, EMPTY for NULL, and t for the table. */
    method GetFrameInfo(d: nat, va: uint32) returns (e: Entry, t: nat)
      requires Laid() && IsPage(dirs, d, va / PAGE_SIZE)
      ensures e == Seen(d, va / PAGE_SIZE)
      ensures e != EMPTY ==> HasTable(dirs, d, va / PAGE_SIZE) && t == dirs[d][Pdx(va / PAGE_SIZE)].frame
      decreases if va / PAGE_SIZE < USER_TOP_PAGE then 4 else 1
    {
      hide Ok, Separate, HeapInjective, Homed;
      var found;
      found, t := GetPageTable(d, va);
      e := if found then tables[t][Ptx(va / PAGE_SIZE)] else EMPTY;
    }

    method KheapVirtualAddress(pa: nat) returns (va: uint32)
      requires Laid() && pa / PAGE_SIZE < n
      ensures va != 0 ==> va % PAGE_SIZE == 0 && KHEAP_START * PAGE_SIZE <= va < startAdd
      ensures va != 0 ==> Holds(At(kdir, va / PAGE_SIZE), pa / PAGE_SIZE)
      ensures va == 0 ==> forall q :: KHEAP_START <= q < startAdd / PAGE_SIZE ==> !Holds(At(kdir, q), pa / PAGE_SIZE)
      decreases 2
    {
      hide Ok, Separate, Homed, EntryAt;
      var i: uint32 := KHEAP_START * PAGE_SIZE;
      while i < startAdd
        invariant i % PAGE_SIZE == 0 && KHEAP_START * PAGE_SIZE <= i <= startAdd
        invariant forall q :: KHEAP_START <= q < i / PAGE_SIZE ==> !Holds(At(kdir, q), pa / PAGE_SIZE)
      {
        var e, _ := GetFrameInfo(kdir, i);
        if e != EMPTY && e.frame == pa / PAGE_SIZE {
          return i;
        }
        i := i + PAGE_SIZE;
      }
      return 0;
    }

    method KheapPhysicalAddress(va: uint32) returns (pa: nat)
      requires Laid() && va / PAGE_SIZE >= USER_TOP_PAGE
      ensures pa == At(kdir, va / PAGE_SIZE).frame * PAGE_SIZE
      decreases 1
    {
      hide Ok, Separate, Homed;
      var found, t := GetPageTable(kdir, va);
      pa := if found then tables[t][Ptx(va / PAGE_SIZE)].frame * PAGE_SIZE else 0;
    }

    /** free_frame: initialize_frame_info, then LIST_INSERT_HEAD. */
    method FreeFrame(f: nat)
      requires f < |references| == |isBuffered|
      modifies this`references, this`isBuffered, this`freeList
      ensures references == old(references)[f := 0] && isBuffered == old(isBuffered)[f := false]
      ensures freeList == [f] + old(freeList)
    {
      references, isBuffered := references[f := 0], isBuffered[f := false];
      freeList := [f] + freeList;
    }

    method DecrementReferences(f: nat)
      requires f < |references| == |isBuffered| && references[f] > 0
      modifies this`references, this`isBuffered, this`freeList
      ensures Frames() == Unmapped(old(Frames()), f)
      ensures |references| == |old(references)| && references == old(references)[f := old(references)[f] - 1]
      ensures if old(references)[f] == 1 then freeList == [f] + old(freeList) && isBuffered == old(isBuffered)[f := false]
              else freeList == old(freeList) && isBuffered == old(isBuffered)
    {
      references := references[f := references[f] - 1];
      if references[f] == 0 {
        FreeFrame(f);
      }
    }

    /** unmap_frame: what it does to the fields, whether or not the counts are right at that moment. */
    method ClearMapping(d: nat, va: uint32)
      requires Laid() && IsPage(dirs, d, va / PAGE_SIZE)
      requires Seen(d, va / PAGE_SIZE) != EMPTY ==> n == |references| == |isBuffered|
      requires Seen(d, va / PAGE_SIZE) != EMPTY ==> references[Seen(d, va / PAGE_SIZE).frame] > 0
      modifies this`references, this`isBuffered, this`freeList, this`tables
      ensures var e := old(Seen(d, va / PAGE_SIZE));
        if e == EMPTY then Frames() == old(Frames()) && tables == old(tables)
        else
          && e.frame < n && Frames() == Unmapped(old(Frames()), e.frame)
          && HasTable(dirs, d, va / PAGE_SIZE) && HasEntry(old(tables), dirs[d][Pdx(va / PAGE_SIZE)].frame, va / PAGE_SIZE)
          && tables == Write(old(tables), dirs[d][Pdx(va / PAGE_SIZE)].frame, Ptx(va / PAGE_SIZE), EMPTY)
    {
      hide Ok, Separate, HeapInjective, Homed;
      var e, t := GetFrameInfo(d, va);
      if e != EMPTY {
        DecrementReferences(e.frame);
        tables := Write(tables, t, Ptx(va / PAGE_SIZE), EMPTY);
      }
    }

    /**
     * unmap_frame. The counts stay above the numbers of holders; the whole invariant survives exactly if the frame
     * is not freed while it is still listed, as that of a buffered page is.
     */
    method UnmapFrame(d: nat, va: uint32)
      requires IsPage(dirs, d, va / PAGE_SIZE)
      requires IsHeapPage(va / PAGE_SIZE) ==> d == kdir && At(d, va / PAGE_SIZE).frame !in home
      requires Tallied()
      modifies this`references, this`isBuffered, this`freeList, this`tables
      ensures Tallied() && tables.Keys == old(tables.Keys)
      ensures old(Valid()) ==> (Valid() <==> !Loses(boot, old(Seen(d, va / PAGE_SIZE))))
      ensures old(Tangled(Frames())) || (old(Valid()) && Loses(boot, old(Seen(d, va / PAGE_SIZE)))) ==> Tangled(Frames())
      ensures Seen(d, va / PAGE_SIZE) == EMPTY
      ensures SameElsewhere(old(tables), dirs, tables, dirs, d, va / PAGE_SIZE)
      ensures var e := old(Seen(d, va / PAGE_SIZE));
        if e == EMPTY then Frames() == old(Frames()) && tables == old(tables)
        else
          && e.frame < n && old(references)[e.frame] > 0 && Frames() == Unmapped(old(Frames()), e.frame)
          && HasTable(dirs, d, va / PAGE_SIZE) && HasEntry(old(tables), dirs[d][Pdx(va / PAGE_SIZE)].frame, va / PAGE_SIZE)
          && tables == Write(old(tables), dirs[d][Pdx(va / PAGE_SIZE)].frame, Ptx(va / PAGE_SIZE), EMPTY)
    {
      hide Ok, Structured, Tangled, Loses;
      ghost var page, e := va / PAGE_SIZE, Seen(d, va / PAGE_SIZE);
      if e == EMPTY {
        NothingLost();
      } else {
        MappedEntry(d, page);
        ghost var s, t := Frames(), dirs[d][Pdx(page)].frame;
        UnmapKeepsAtLeast(n, s, tables, t, Ptx(page));
        if Valid() { UnmapExactly(n, s, tables, t, Ptx(page)); }
        if Tangled(s) { UnmapKeepsTangled(s, e.frame); }
        WriteKeepsStructure(n, boot, tables, dirs, kdir, home, d, page, EMPTY);
      }
      ClearMapping(d, va);
    }

    lemma NothingLost()
      ensures !Loses(boot, EMPTY)
    {
    }

    /** An entry other than 0 is one of an existing table, and its frame exists. */
    lemma MappedEntry(d: nat, page: nat)
      requires Tallied() && IsPage(dirs, d, page) && At(d, page) != EMPTY
      ensures HasTable(dirs, d, page) && dirs[d][Pdx(page)].frame in tables
      ensures |tables[dirs[d][Pdx(page)].frame]| == ENTRIES && |references| == n == |isBuffered|
      ensures At(d, page) == tables[dirs[d][Pdx(page)].frame][Ptx(page)] && At(d, page).frame < n
    {
      hide Holders, HeapInjective, Homed, Separate;
    }

    /** The next k frames of the free list exist and are not buffered. */
    ghost predicate CanAllocateMany(k: nat)
      reads this
    {
      k <= |freeList| && forall i :: 0 <= i < k ==> freeList[i] < |isBuffered| && !isBuffered[freeList[i]]
    }

    /** With the cursor at the end of the heap the search ends only if it finds a run. */
    ghost predicate SearchEnds(k: nat)
      reads this
    {
      startAdd == KHEAP_MAX * PAGE_SIZE ==> exists r: nat :: FreeRun(tables, dirs, kdir, KHEAP_MAX, k, r)
    }

    /** Heap pages have entries that the kernel always finds. */
    lemma HeapSeen(q: nat)
      requires Laid() && IsHeapPage(q)
      ensures IsPage(dirs, kdir, q) && Seen(kdir, q) == At(kdir, q)
    {
      hide Separate, Homed, EntryAt;
    }

    /** The search of nextFitAlgo: the first run of k unmapped pages in circular order from the cursor. */
    method SearchHeap(size: uint32) returns (found: bool, first: uint32, last: uint32, ghost r: nat)
      requires Valid() && size > 0 && size % PAGE_SIZE == 0 && SearchEnds(size / PAGE_SIZE)
      ensures found ==> FirstRun(tables, dirs, kdir, startAdd / PAGE_SIZE, size / PAGE_SIZE, r)
      ensures found ==> first == Spin(startAdd / PAGE_SIZE, r) * PAGE_SIZE
      ensures found ==> last == Spin(startAdd / PAGE_SIZE, r + size / PAGE_SIZE - 1) * PAGE_SIZE
      ensures !found ==> forall r' :: !FreeRun(tables, dirs, kdir, startAdd / PAGE_SIZE, size / PAGE_SIZE, r')
    {
      hide Ok, Structured, EntryAt, FreeRun, FirstRun, Walked, Spin, Seen;
      var x: uint32, y := 0, 0;
      first, last := 0, 0;
      ghost var c, k, run, end := startAdd / PAGE_SIZE, size / PAGE_SIZE, 0, 0;
      if c == KHEAP_MAX {
        end :| FreeRun(tables, dirs, kdir, c, k, end);
      }
      var i: uint32 := startAdd;
      r := 0;
      NotWalked(tables, dirs, kdir, c, k);
      while true
        invariant 0 <= run <= r && x == run * PAGE_SIZE && run < k && (c < KHEAP_MAX ==> r <= KHEAP_PAGES)
        invariant i == (if r == 0 then c else Spin(c, r - 1) + 1) * PAGE_SIZE
        invariant y == if r == 0 || c == KHEAP_MAX then 0 else 1
        invariant run > 0 ==> first == Spin(c, r - run) * PAGE_SIZE && last == Spin(c, r - 1) * PAGE_SIZE
        invariant Walked(tables, dirs, kdir, c, k, r, run)
        decreases if c < KHEAP_MAX then KHEAP_PAGES - r else end + k - r
      {
        if c == KHEAP_MAX { WalkBounded(tables, dirs, kdir, c, k, r, run, end); }
        SpinNext(c, if r == 0 then 0 else r - 1);
        if i == KHEAP_MAX * PAGE_SIZE {
          i := KHEAP_START * PAGE_SIZE;
        }
        if i == startAdd {
          y := y + 1;
        }
        if y == 2 && x != size {
          TooLate(tables, dirs, kdir, c, k, run);
          return false, 0, 0, 0;
        }
        HeapSeen(i / PAGE_SIZE);
        var e, _ := GetFrameInfo(kdir, i);
        if e == EMPTY {
          if x == 0 {
            first := i;
          }
          last := i;
          x := x + PAGE_SIZE;
          IdlePage(tables, dirs, kdir, c, k, r, run);
          run := run + 1;
        } else {
          x := 0;
          BusyPage(tables, dirs, kdir, c, k, r, run);
          run := 0;
        }
        r := r + 1;
        if x == size {
          r := r - run;
          return true, first, last, r;
        }
        i := i + PAGE_SIZE;
      }
    }

    /** What map_frame asks of the frame: it is in the caller's hands or referenced, and its count does not wrap. */
    ghost predicate Mappable(f: nat)
      reads this
    {
      f < n == |references| == |isBuffered| && references[f] < 0xFFFF && (f in inHand || references[f] > 0)
    }

    /** map_frame once the page table is at hand. */
    method MapInTable(d: nat, t: nat, f: nat, va: uint32, perm: set<Perm>)
      requires Valid() && IsPage(dirs, d, va / PAGE_SIZE) && HasTable(dirs, d, va / PAGE_SIZE)
      requires Reachable(d, va / PAGE_SIZE) && t == dirs[d][Pdx(va / PAGE_SIZE)].frame
      requires Mappable(f) && Buffered !in perm
      requires IsHeapPage(va / PAGE_SIZE) ==> d == kdir && f in inHand && At(d, va / PAGE_SIZE) == EMPTY
      modifies this`references, this`isBuffered, this`freeList, this`tables, this`inHand
      ensures Tallied() && tables.Keys == old(tables.Keys)
      ensures !Already(old(At(d, va / PAGE_SIZE)), f) ==>
        (Valid() <==> Buffered !in old(At(d, va / PAGE_SIZE)).perm && !old(isBuffered)[f])
      ensures Buffered in old(At(d, va / PAGE_SIZE)).perm ==> Stray(n, Frames(), tables)
      ensures SameElsewhere(old(tables), dirs, tables, dirs, d, va / PAGE_SIZE)
      ensures var e := old(At(d, va / PAGE_SIZE));
        if Already(e, f) then tables == old(tables) && Frames() == old(Frames())
        else
          && At(d, va / PAGE_SIZE) == Entry(f, perm + {Present})
          && HasEntry(old(tables), t, va / PAGE_SIZE)
          && tables == Write(old(tables), t, Ptx(va / PAGE_SIZE), Entry(f, perm + {Present}))
          && (Present in e.perm ==> e.frame < n && old(references)[e.frame] > 0)
          && Frames() == Remapped(old(Frames()), e, f)
    {
      hide Ok, Structured, Loses, Tangled, Stray;
      ghost var page := va / PAGE_SIZE;
      TableExists(d, page);
      ValidIsTallied();
      var e := tables[t][Ptx(va / PAGE_SIZE)];
      if Present in e.perm {
        PresentFrame(d, page);
        if e.frame == f {
          return;
        }
        NothingBufferedLost(e);
        UnmapFrame(d, va);
        WriteTwice(old(tables), t, Ptx(page), EMPTY, Entry(f, perm + {Present}));
      } else {
        AbsentEntry(d, page);
      }
      Install(d, t, f, va, perm);
    }

    lemma NothingBufferedLost(e: Entry)
      requires Buffered !in e.perm
      ensures !Loses(boot, e)
    {
    }

    /** The end of map_frame: count the reference and fill the entry. */
    method Install(d: nat, t: nat, f: nat, va: uint32, perm: set<Perm>)
      requires Valid() && IsPage(dirs, d, va / PAGE_SIZE) && HasTable(dirs, d, va / PAGE_SIZE)
      requires t == dirs[d][Pdx(va / PAGE_SIZE)].frame && Present !in At(d, va / PAGE_SIZE).perm
      requires Mappable(f) && Buffered !in perm
      requires IsHeapPage(va / PAGE_SIZE) ==> d == kdir && f in inHand && At(d, va / PAGE_SIZE) == EMPTY
      modifies this`references, this`tables, this`inHand
      ensures Tallied() && tables.Keys == old(tables.Keys) && (Valid() <==> old(At(d, va / PAGE_SIZE)) == EMPTY && !old(isBuffered)[f])
      ensures old(At(d, va / PAGE_SIZE)) != EMPTY ==> Stray(n, Frames(), tables)
      ensures SameElsewhere(old(tables), dirs, tables, dirs, d, va / PAGE_SIZE)
      ensures At(d, va / PAGE_SIZE) == Entry(f, perm + {Present}) && Frames() == Mapped(old(Frames()), f)
      ensures HasEntry(old(tables), t, va / PAGE_SIZE)
      ensures tables == Write(old(tables), t, Ptx(va / PAGE_SIZE), Entry(f, perm + {Present}))
    {
      hide Ok, Structured, Stray;
      ghost var page := va / PAGE_SIZE;
      TableExists(d, page);
      if f in inHand { HandedOutIsUnheld(f); }
      ValidIsTallied();
      var e := Entry(f, perm + {Present});
      MapExactly(n, Frames(), tables, t, Ptx(page), e);
      MapKeepsAtLeast(n, Frames(), tables, t, Ptx(page), e);
      WriteKeepsStructure(n, boot, tables, dirs, kdir, home, d, page, e);
      references := references[f := references[f] + 1];
      inHand := inHand - {f};
      tables := Write(tables, t, Ptx(va / PAGE_SIZE), e);
    }

    lemma TableExists(d: nat, page: nat)
      requires (Valid() || Tallied()) && IsPage(dirs, d, page) && HasTable(dirs, d, page)
      ensures var t := dirs[d][Pdx(page)].frame; t in tables && |tables[t]| == ENTRIES && Ptx(page) < ENTRIES
      ensures |references| == n == |isBuffered|
    {
      hide Counted, Listed, Flagged, Separate, HeapInjective, Homed;
    }

    /** A frame in a caller's hands is held by no entry and holds no table. */
    lemma HandedOutIsUnheld(f: nat)
      requires Valid() && f in inHand
      ensures |references| == n == |isBuffered| && f < n && references[f] == 0 && Holders(tables, f) == {} && f !in tables && f !in dirs
    {
      hide Holders, Separate, HeapInjective, Flagged;
      ZeroReferences(f);
    }

    lemma ZeroReferences(f: nat)
      requires Valid() && f < n && references[f] == 0
      ensures Holders(tables, f) == {} && f !in tables && f !in dirs
    {
      hide Separate, HeapInjective, Flagged, Listed;
      assert |Holders(tables, f)| == 0;
      if f in home {
        HolderCounts(tables, dirs[kdir][Pdx(home[f])].frame, Ptx(home[f]));
      }
    }

    lemma HeapTablesExist()
      requires Valid()
      ensures forall q :: IsHeapPage(q) ==> HasTable(dirs, kdir, q)
    {
      hide Ok, Separate, Homed;
    }

    lemma FirstVacant(tables: Tables, dirs: Dirs, kdir: nat, lo: nat, hi: nat)
      requires Vacant(tables, dirs, kdir, lo, hi) && IsHeapPage(lo) && lo <= hi
      ensures EntryAt(tables, dirs, kdir, lo) == EMPTY
    {
      hide EntryAt;
    }

    /** The body of that loop: a fresh frame for one unmapped page of the heap. */
    method MapHeapPage(va: uint32) returns (f: nat)
      requires IsHeapPage(va / PAGE_SIZE) && va / PAGE_SIZE < KHEAP_MAX && At(kdir, va / PAGE_SIZE) == EMPTY
      requires CanAllocateMany(1) && Valid()
      modifies this`references, this`isBuffered, this`freeList, this`tables, this`inHand
      ensures Valid() && tables.Keys == old(tables.Keys)
      ensures isBuffered == old(isBuffered) && inHand == old(inHand)
      ensures f == old(freeList)[0] && freeList == old(freeList)[1..] && f < |old(references)|
      ensures references == old(references)[f := 1]
      ensures At(kdir, va / PAGE_SIZE) == Entry(f, {Present, Writeable})
      ensures SameElsewhere(old(tables), dirs, tables, dirs, kdir, va / PAGE_SIZE)
    {
      hide Ok, Separate, HeapInjective, Homed, EntryAt, SameElsewhere;
      HeapTablesExist();
      f := AllocateFrame();
      label Allocated:
      var _, t := GetPageTable(kdir, va);
      MapInTable(kdir, t, f, va, KERNEL_PERM);
      assert Frames() == Mapped(old@Allocated(Frames()), f);
      assert KERNEL_PERM + {Present} == KERNEL_PERM;
    }

    /** The mapping loop of nextFitAlgo; the tables of the kernel heap exist, so map_frame creates none. */
    method MapFresh(first: uint32, last: uint32, ghost k: nat)
      requires Valid() && first % PAGE_SIZE == 0 && last % PAGE_SIZE == 0
      requires KHEAP_START * PAGE_SIZE <= first <= last < KHEAP_MAX * PAGE_SIZE
      requires last == first + (k - 1) * PAGE_SIZE
      requires Vacant(tables, dirs, kdir, first / PAGE_SIZE, last / PAGE_SIZE)
      requires CanAllocateMany(k)
      modifies this`references, this`isBuffered, this`freeList, this`tables, this`inHand
      ensures Valid() && tables.Keys == old(tables.Keys)
      ensures isBuffered == old(isBuffered) && inHand == old(inHand)
      ensures freeList == old(freeList)[k..]
      ensures |references| == |old(references)|
      ensures forall g :: 0 <= g < |references| && g !in old(freeList) ==> references[g] == old(references)[g]
      ensures MapsFrames(tables, dirs, kdir, first / PAGE_SIZE, old(freeList)[..k])
      ensures SameOutside(old(tables), dirs, tables, dirs, first / PAGE_SIZE, last / PAGE_SIZE)
    {
      hide Ok, Separate, HeapInjective, Homed, EntryAt, SameElsewhere, SameOutside, MapsFrames;
      HeapTablesExist();
      BlockStarts(tables, dirs, kdir, first / PAGE_SIZE, last / PAGE_SIZE);
      var j: uint32 := first;
      ghost var lo, hi, done := first / PAGE_SIZE, last / PAGE_SIZE, 0;
      while j <= last
        invariant done <= hi - lo + 1 && j == (lo + done) * PAGE_SIZE
        invariant Valid() && tables.Keys == old(tables.Keys)
        invariant isBuffered == old(isBuffered) && inHand == old(inHand)
        invariant freeList == old(freeList)[done..] && |references| == |old(references)|
        invariant forall g :: 0 <= g < |references| && g !in old(freeList) ==> references[g] == old(references)[g]
        invariant Vacant(tables, dirs, kdir, lo + done, hi)
        invariant MapsFrames(tables, dirs, kdir, lo, old(freeList)[..done])
        invariant SameOutside(old(tables), dirs, tables, dirs, lo, hi)
        decreases hi - lo + 1 - done
      {
        ghost var before := tables;
        FirstVacant(tables, dirs, kdir, lo + done, hi);
        var f := MapHeapPage(j);
        BlockGrows(old(tables), before, tables, dirs, kdir, lo, hi, old(freeList)[..done], f);
        assert old(freeList)[..done] + [f] == old(freeList)[..done + 1];
        j := j + PAGE_SIZE;
        done := done + 1;
      }
    }

    /** ROUNDUP(size, PAGE_SIZE). */
    method RoundedSize(size: uint32) returns (sz: uint32)
      requires 0 < size <= 0xFFFF_F000
      ensures sz == PagesFor(size) * PAGE_SIZE
    {
      RoundUpToPages(size);
      sz := RoundUp(size, PAGE_SIZE);
    }

    /** kmalloc of one page succeeds: a page is unmapped, a frame is free. */
    ghost predicate CanGrow()
      reads this
    {
      && CanAllocateMany(1)
      && exists q :: KHEAP_START <= q < KHEAP_MAX && At(kdir, q) == EMPTY
    }

    /**
     * kmalloc by next fit. The block starts where the search stops; when it would cross the end
     * of the heap nothing is mapped, but its address is returned all the same.
     */
    method Kmalloc(size: uint32) returns (va: uint32, ghost r: nat)
      requires 0 < size <= 0xFFFF_F000
      requires Valid() && SearchEnds(PagesFor(size)) && CanAllocateMany(Span(PagesFor(size)))
      modifies this`references, this`isBuffered, this`freeList, this`tables, this`inHand, this`startAdd, this`blocks
      ensures Valid() && isBuffered == old(isBuffered) && inHand == old(inHand) && tables.Keys == old(tables.Keys)
      ensures |references| == |old(references)|
      ensures forall g :: 0 <= g < |references| && g !in old(freeList) ==> references[g] == old(references)[g]
      ensures va == 0 ==>
        && (forall r' :: !FreeRun(old(tables), dirs, kdir, old(startAdd) / PAGE_SIZE, PagesFor(size), r'))
        && startAdd == old(startAdd) && tables == old(tables) && Frames() == old(Frames()) && blocks == old(blocks)
      ensures va != 0 ==>
        && FirstRun(old(tables), dirs, kdir, old(startAdd) / PAGE_SIZE, PagesFor(size), r)
        && va == Spin(old(startAdd) / PAGE_SIZE, r) * PAGE_SIZE
        && startAdd == (Spin(old(startAdd) / PAGE_SIZE, r + PagesFor(size) - 1) + 1) * PAGE_SIZE
      ensures va != 0 ==> blocks == old(blocks) + [HeapBlock(va, startAdd - PAGE_SIZE)]
      ensures va != 0 && Crosses(old(startAdd) / PAGE_SIZE, r, PagesFor(size)) ==>
        tables == old(tables) && Frames() == old(Frames())
      ensures va != 0 && !Crosses(old(startAdd) / PAGE_SIZE, r, PagesFor(size)) ==>
        && Span(PagesFor(size)) <= |old(freeList)| && freeList == old(freeList)[Span(PagesFor(size))..]
        && MapsFrames(tables, dirs, kdir, va / PAGE_SIZE, old(freeList)[..Span(PagesFor(size))])
        && SameOutside(old(tables), dirs, tables, dirs, va / PAGE_SIZE, startAdd / PAGE_SIZE - 1)
        && KernelsOwn(tables, dirs, kdir, va / PAGE_SIZE, Span(PagesFor(size)))
    {
      hide Ok, Separate, HeapInjective, Homed, EntryAt, FreeRun, FirstRun, RoundUp, PagesFor, Spin, Shape, MapsFrames, SameOutside, Vacant,
        Crosses, Span, SearchEnds, KernelsOwn;
      var sz := RoundedSize(size);
      assert sz / PAGE_SIZE == PagesFor(size);
      ghost var c, k := startAdd / PAGE_SIZE, sz / PAGE_SIZE;
      var found, first, last;
      found, first, last, r := SearchHeap(sz);
      if !found {
        assert forall r' :: !FreeRun(tables, dirs, kdir, c, k, r');
        return 0, 0;
      }
      RunVacant(tables, dirs, kdir, c, k, r);
      if first <= last {
        MapFresh(first, last, Span(k));
        MappedForKernel(tables, dirs, kdir, first / PAGE_SIZE, old(freeList)[..Span(k)]);
      }
      startAdd := last + PAGE_SIZE;
      blocks := blocks + [HeapBlock(first, last)];
      return first, r;
    }

    lemma FreshFrame()
      requires Valid() && CanAllocateMany(1)
      ensures freeList[0] < n && freeList[0] !in tables && freeList[0] !in dirs
    {
      hide Holders, Structured;
      AllocateKeepsOk(n, Frames(), tables);
      ZeroReferences(freeList[0]);
    }

    /** A heap with an unmapped page has a run of one page. */
    lemma OnePageFits()
      requires Valid() && CanGrow()
      ensures SearchEnds(1) && exists r :: FreeRun(tables, dirs, kdir, startAdd / PAGE_SIZE, 1, r)
    {
      hide Ok, Separate, HeapInjective, Homed, EntryAt;
      var q :| KHEAP_START <= q < KHEAP_MAX && At(kdir, q) == EMPTY;
      var c := startAdd / PAGE_SIZE;
      var r := if q >= c then q - c else q - c + KHEAP_PAGES;
      assert Spin(c, r) == q;
      assert FreeRun(tables, dirs, kdir, c, 1, r);
    }

    /** create_page_table. */
    method CreatePageTable(d: nat, va: uint32) returns (t: nat, h: nat)
      requires Valid() && IsPage(dirs, d, va / PAGE_SIZE) && va / PAGE_SIZE < USER_TOP_PAGE
      requires !HasTable(dirs, d, va / PAGE_SIZE) && CanGrow()
      modifies this`references, this`isBuffered, this`freeList, this`tables, this`inHand, this`startAdd, this`blocks, this`dirs, this`home
      ensures Valid() && isBuffered == old(isBuffered) && inHand == old(inHand) && dirs.Keys == old(dirs.Keys)
      ensures IsPage(dirs, d, va / PAGE_SIZE) && HasTable(dirs, d, va / PAGE_SIZE) && dirs[d][Pdx(va / PAGE_SIZE)].frame == t
      ensures t == old(freeList)[0] && freeList == old(freeList)[1..] && |references| == |old(references)|
      ensures forall g :: 0 <= g < |references| && g !in old(freeList) ==> references[g] == old(references)[g]
      ensures dirs == old(dirs)[d := old(dirs)[d][Pdx(va / PAGE_SIZE) := Entry(t, {Present, Writeable, User})]]
      ensures home == old(home)[t := h] && At(kdir, h) == Entry(t, {Present, Writeable}) && EntryAt(old(tables), old(dirs), kdir, h) == EMPTY
      ensures KHEAP_START <= h < KHEAP_MAX && startAdd == (h + 1) * PAGE_SIZE
      ensures SameOutside(old(tables), old(dirs), tables, dirs, h, h)
    {
      hide Ok, Separate, HeapInjective, Homed, EntryAt, SameOutside, CanAllocateMany;
      var pa;
      pa, h := KmallocPage();
      t := pa / PAGE_SIZE;
      NewTableKeepsOk(n, Frames(), tables, t);
      NewTableKeepsStructure(n, boot, old(tables), tables, dirs, kdir, home, d, va / PAGE_SIZE, t, h);
      dirs := dirs[d := dirs[d][Pdx(va / PAGE_SIZE) := Entry(pa / PAGE_SIZE, {Present, Writeable, User})]];
      tables := tables[t := seq(ENTRIES, _ => EMPTY)];
      home := home[t := h];
    }

    /** kmalloc(PAGE_SIZE) and the physical address of the page it returns. */
    method KmallocPage() returns (pa: nat, h: nat)
      requires Valid() && CanGrow()
      modifies this`references, this`isBuffered, this`freeList, this`tables, this`inHand, this`startAdd, this`blocks
      ensures Valid() && isBuffered == old(isBuffered) && inHand == old(inHand) && tables.Keys == old(tables.Keys)
      ensures pa == old(freeList)[0] * PAGE_SIZE && freeList == old(freeList)[1..] && |references| == |old(references)|
      ensures forall g :: 0 <= g < |references| && g !in old(freeList) ==> references[g] == old(references)[g]
      ensures old(freeList)[0] < n && old(freeList)[0] !in tables && old(freeList)[0] !in dirs
      ensures KHEAP_START <= h < KHEAP_MAX && startAdd == (h + 1) * PAGE_SIZE
      ensures At(kdir, h) == Entry(old(freeList)[0], {Present, Writeable}) && EntryAt(old(tables), dirs, kdir, h) == EMPTY
      ensures SameOutside(old(tables), dirs, tables, dirs, h, h)
    {
      hide Ok, Separate, HeapInjective, Homed, EntryAt, SameOutside, FirstRun, FreeRun, MapsFrames;
      ghost var before := tables;
      FreshFrame();
      OnePageFits();
      var newPT, r := Kmalloc(PAGE_SIZE);
      OnePageRun(before, dirs, kdir, old(startAdd) / PAGE_SIZE, r);
      h := newPT / PAGE_SIZE;
      FirstMapped(tables, dirs, kdir, h, old(freeList)[..1]);
      pa := KheapPhysicalAddress(newPT);
    }

    /** create_user_directory and the part of initialize_environment that fills the directory. */
    method CreateUserDirectory() returns (d: nat, h: nat)
      requires Valid() && CanGrow()
      modifies this`references, this`isBuffered, this`freeList, this`tables, this`inHand, this`startAdd, this`blocks, this`dirs, this`home
      ensures Valid() && isBuffered == old(isBuffered) && inHand == old(inHand)
      ensures d == old(freeList)[0] && freeList == old(freeList)[1..] && d !in old(dirs)
      ensures kdir in old(dirs) && |old(dirs)[kdir]| == ENTRIES && dirs == old(dirs)[d := UserDirectory(old(dirs)[kdir])]
      ensures KHEAP_START <= h < KHEAP_MAX && startAdd == (h + 1) * PAGE_SIZE && home == old(home)[d := h]
      ensures At(kdir, h) == Entry(d, {Present, Writeable})
      ensures SameOutside(old(tables), old(dirs), tables, dirs, h, h)
      ensures forall page :: 0 <= page < USER_TOP_PAGE ==> At(d, page) == EMPTY
    {
      hide Ok, Separate, HeapInjective, Homed, SameOutside, CanAllocateMany;
      var pa;
      pa, h := KmallocPage();
      d := pa / PAGE_SIZE;
      NewDirectoryKeepsStructure(n, boot, tables, dirs, kdir, home, d, h);
      ghost var dirs0 := dirs;
      dirs := dirs[d := UserDirectory(dirs[kdir])];
      home := home[d := h];
      OtherDirectories(old(tables), dirs0, tables, dirs, d, h);
    }

    lemma NotFree(f: nat)
      requires Valid() && Mappable(f) && !isBuffered[f]
      ensures f !in freeList && |references| == n == |isBuffered|
    {
      hide Holders, Structured, Flagged, Counted;
    }

    method MapFrame(d: nat, f: nat, va: uint32, perm: set<Perm>) returns (ghost h: nat)
      requires Valid() && IsPage(dirs, d, va / PAGE_SIZE) && Reachable(d, va / PAGE_SIZE)
      requires Mappable(f) && Buffered !in perm
      requires IsHeapPage(va / PAGE_SIZE) ==> d == kdir && f in inHand && At(d, va / PAGE_SIZE) == EMPTY
      requires HasTable(dirs, d, va / PAGE_SIZE) || (va / PAGE_SIZE < USER_TOP_PAGE && CanGrow() && !isBuffered[f])
      modifies this`references, this`isBuffered, this`freeList, this`tables, this`inHand, this`startAdd, this`blocks, this`dirs, this`home
      ensures Tallied() && dirs.Keys == old(dirs.Keys) && IsPage(dirs, d, va / PAGE_SIZE)
      ensures !Already(old(At(d, va / PAGE_SIZE)), f) ==>
        (Valid() <==> Buffered !in old(At(d, va / PAGE_SIZE)).perm && !old(isBuffered)[f])
      ensures Already(old(At(d, va / PAGE_SIZE)), f) ==> Valid()
      ensures Buffered in old(At(d, va / PAGE_SIZE)).perm ==> Stray(n, Frames(), tables)
      ensures old(HasTable(dirs, d, va / PAGE_SIZE)) ==>
        && dirs == old(dirs) && startAdd == old(startAdd) && blocks == old(blocks) && home == old(home) && tables.Keys == old(tables.Keys)
        && SameElsewhere(old(tables), dirs, tables, dirs, d, va / PAGE_SIZE)
        && var e := old(At(d, va / PAGE_SIZE));
           if Already(e, f) then tables == old(tables) && Frames() == old(Frames())
           else
             && At(d, va / PAGE_SIZE) == Entry(f, perm + {Present})
             && HasEntry(old(tables), dirs[d][Pdx(va / PAGE_SIZE)].frame, va / PAGE_SIZE)
             && tables == Write(old(tables), dirs[d][Pdx(va / PAGE_SIZE)].frame, Ptx(va / PAGE_SIZE), Entry(f, perm + {Present}))
             && (Present in e.perm ==> e.frame < n && old(references)[e.frame] > 0)
             && Frames() == Remapped(old(Frames()), e, f)
      ensures !old(HasTable(dirs, d, va / PAGE_SIZE)) ==>
        && At(d, va / PAGE_SIZE) == Entry(f, perm + {Present})
        && isBuffered == old(isBuffered) && inHand == old(inHand) - {f} && freeList == old(freeList)[1..]
        && KHEAP_START <= h < KHEAP_MAX && startAdd == (h + 1) * PAGE_SIZE && home == old(home)[old(freeList)[0] := h]
        && HasTable(dirs, d, va / PAGE_SIZE) && dirs[d][Pdx(va / PAGE_SIZE)].frame == old(freeList)[0]
        && SameBeside(old(tables), old(dirs), tables, dirs, d, va / PAGE_SIZE, h)
    {
      hide Ok, Separate, HeapInjective, Homed, Stray;
      var found, t := GetPageTable(d, va);
      h := 0;
      if !found {
        NotFree(f);
        t, h := CreatePageTable(d, va);
      }
      MapInTable(d, t, f, va, perm);
    }

    lemma HeapNotBuffered(q: nat)
      requires Valid() && IsHeapPage(q)
      ensures IsPage(dirs, kdir, q) && Buffered !in At(kdir, q).perm
    {
      hide Ok, Separate, Homed, EntryAt;
    }

    /** The lookup of kfree: no break, so the newest block that starts at va wins. */
    method FindBlock(va: uint32) returns (flag: bool, end: uint32)
      ensures flag == (NewestBlock(blocks, va) != [])
      ensures flag ==> end == NewestBlock(blocks, va)[0].last
    {
      flag, end := false, 0;
      var i := 0;
      while i < |blocks|
        invariant 0 <= i <= |blocks|
        invariant flag == (NewestBlock(blocks[..i], va) != [])
        invariant flag ==> end == NewestBlock(blocks[..i], va)[0].last
      {
        NewestGrows(blocks, i, va);
        if va == blocks[i].first {
          flag, end := true, blocks[i].last;
        }
        i := i + 1;
      }
      assert blocks[..i] == blocks;
    }

    /** kfree, for a block that holds no page table or directory. */
    method Kfree(va: uint32)
      requires Valid()
      requires forall b, q :: b in NewestBlock(blocks, va) && va / PAGE_SIZE <= q <= b.last / PAGE_SIZE ==>
                 EntryAt(tables, dirs, kdir, q).frame !in home
      modifies this`references, this`isBuffered, this`freeList, this`tables
      ensures Valid() && tables.Keys == old(tables.Keys)
      ensures NewestBlock(blocks, va) == [] ==> tables == old(tables) && Frames() == old(Frames())
      ensures NewestBlock(blocks, va) != [] ==>
        && Vacant(tables, dirs, kdir, va / PAGE_SIZE, NewestBlock(blocks, va)[0].last / PAGE_SIZE)
        && SameOutside(old(tables), dirs, tables, dirs, va / PAGE_SIZE, NewestBlock(blocks, va)[0].last / PAGE_SIZE)
      ensures MoreFree(old(Frames()), Frames())
    {
      hide Ok, Structured;
      var flag, end := FindBlock(va);
      if flag {
        ghost var b := NewestBlock(blocks, va)[0];
        assert b in blocks && b.first == va && b.last == end;
        UnmapBlock(va, end);
      }
    }

    /** The unmapping loop of kfree. */
    method UnmapBlock(first: uint32, last: uint32)
      requires Valid() && InHeap(HeapBlock(first, last))
      requires forall q :: first / PAGE_SIZE <= q <= last / PAGE_SIZE ==> EntryAt(tables, dirs, kdir, q).frame !in home
      modifies this`references, this`isBuffered, this`freeList, this`tables
      ensures Valid() && tables.Keys == old(tables.Keys)
      ensures Vacant(tables, dirs, kdir, first / PAGE_SIZE, last / PAGE_SIZE)
      ensures SameOutside(old(tables), dirs, tables, dirs, first / PAGE_SIZE, last / PAGE_SIZE)
      ensures MoreFree(old(Frames()), Frames())
    {
      hide Ok, Structured, Seen, EntryAt, MoreFree, SameOutside, SameElsewhere, Vacant, Loses, Tangled;
      ghost var lo, hi, p := first / PAGE_SIZE, last / PAGE_SIZE, first / PAGE_SIZE;
      BlockStarts(tables, dirs, kdir, lo, hi);
      NoMoreFree(Frames());
      NoneVacant(tables, dirs, kdir, lo);
      var j: uint32 := first;
      while j <= last
        invariant Valid() && tables.Keys == old(tables.Keys)
        invariant j == p * PAGE_SIZE && lo <= p && (p == lo || p <= hi + 1)
        invariant Untouched(old(tables), tables, dirs, kdir, p, hi) && MoreFree(old(Frames()), Frames())
        invariant Vacant(tables, dirs, kdir, lo, p - 1)
        invariant SameOutside(old(tables), dirs, tables, dirs, lo, hi)
        decreases hi + 1 - p
      {
        ghost var before := tables;
        HeapNotBuffered(p);
        HeapSeen(p);
        ValidIsTallied();
        NothingBufferedLost(At(kdir, p));
        ghost var s, e := Frames(), At(kdir, p);
        UnmapFrame(kdir, j);
        HeapSeen(p);
        if e != EMPTY { UnmapFreesMore(old(Frames()), s, e.frame); }
        BlockShrinks(old(tables), before, tables, dirs, kdir, lo, hi, p);
        j := j + PAGE_SIZE;
        p := p + 1;
      }
      VacantShort(tables, dirs, kdir, lo, hi, p - 1);
    }

    /** pt_get_page_permissions: no table means no permissions. */
    method GetPagePermissions(d: nat, va: uint32) returns (perm: set<Perm>)
      requires Laid() && IsPage(dirs, d, va / PAGE_SIZE) && Reachable(d, va / PAGE_SIZE)
      ensures perm == At(d, va / PAGE_SIZE).perm
    {
      hide Structured;
      var e, _ := GetFrameInfo(d, va);
      perm := e.perm;
    }

    /** pt_set_page_permissions: on a page that stays present it keeps the invariant, and never changes who holds what. */
    method SetPagePermissions(d: nat, va: uint32, toSet: set<Perm>, toClear: set<Perm>)
      requires IsPage(dirs, d, va / PAGE_SIZE) && HasTable(dirs, d, va / PAGE_SIZE) && Reachable(d, va / PAGE_SIZE)
      requires !IsHeapPage(va / PAGE_SIZE) && (At(d, va / PAGE_SIZE) == EMPTY ==> toSet == {})
      requires Tallied()
      modifies this`tables
      ensures Tallied() && tables.Keys == old(tables.Keys)
      ensures var e := old(At(d, va / PAGE_SIZE));
        && At(d, va / PAGE_SIZE) == Entry(e.frame, e.perm + toSet - toClear)
        && (e.perm + toSet - toClear != {} ==> forall g: nat :: |Holders(tables, g)| == |Holders(old(tables), g)|)
        && (old(Valid()) && Present in e.perm && Present !in toClear && Buffered !in toSet ==> Valid())
      ensures SameElsewhere(old(tables), dirs, tables, dirs, d, va / PAGE_SIZE)
    {
      hide Ok, Structured, Holders;
      ghost var page := va / PAGE_SIZE;
      TableExists(d, page);
      var _, t := GetPageTable(d, va);
      var e := tables[t][Ptx(va / PAGE_SIZE)];
      ghost var e' := Entry(e.frame, e.perm + toSet - toClear);
      if e == EMPTY {
        assert e'.perm == {};
        WriteSame(tables, t, Ptx(page), e');
      } else {
        MappedEntry(d, page);
        RepermKeepsAtLeast(n, Frames(), tables, t, Ptx(page), e'.perm);
        if Valid() && Present in e.perm && Present !in toClear && Buffered !in toSet {
          PresentFrame(d, page);
          RepermKeepsOk(n, Frames(), tables, t, Ptx(page), e'.perm);
        }
        WriteKeepsStructure(n, boot, tables, dirs, kdir, home, d, page, e');
      }
      tables := Write(tables, t, Ptx(va / PAGE_SIZE), Entry(e.frame, e.perm + toSet - toClear));
    }

    /** A page that leaves memory keeps its frame, on the modified list when dirty and else on the free list. */
    method BufferPage(d: nat, va: uint32)
      requires Valid() && IsPage(dirs, d, va / PAGE_SIZE) && Reachable(d, va / PAGE_SIZE) && !IsHeapPage(va / PAGE_SIZE)
      requires Present in At(d, va / PAGE_SIZE).perm && |Holders(tables, At(d, va / PAGE_SIZE).frame)| == 1
      modifies this`isBuffered, this`freeList, this`modifiedList, this`tables
      ensures Valid() && tables.Keys == old(tables.Keys)
      ensures var e := old(At(d, va / PAGE_SIZE));
        e.frame < |old(isBuffered)| && Frames() == Victimised(old(Frames()), e)
      ensures var e := old(At(d, va / PAGE_SIZE));
        && At(d, va / PAGE_SIZE) == Entry(e.frame, e.perm + {Buffered} - {Present})
        && freeList == old(freeList) + (if Modified in e.perm then [] else [e.frame])
        && modifiedList == old(modifiedList) + (if Modified in e.perm then [e.frame] else [])
      ensures SameElsewhere(old(tables), dirs, tables, dirs, d, va / PAGE_SIZE)
    {
      hide Ok, Structured, Holders;
      ghost var page := va / PAGE_SIZE;
      PresentFrame(d, page);
      var e, t := GetFrameInfo(d, va);
      VictimKeepsOk(n, Frames(), tables, t, Ptx(page));
      WriteKeepsStructure(n, boot, tables, dirs, kdir, home, d, page, Entry(e.frame, BufferedPerm(e.perm)));
      isBuffered := isBuffered[e.frame := true];
      tables := Write(tables, t, Ptx(va / PAGE_SIZE), Entry(e.frame, e.perm + {Buffered} - {Present}));
      var perm := e.perm + {Buffered} - {Present};
      if Modified in perm {
        modifiedList := modifiedList + [e.frame];
      } else {
        freeList := freeList + [e.frame];
      }
    }

    lemma PresentFrame(d: nat, page: nat)
      requires Valid() && IsPage(dirs, d, page) && Present in At(d, page).perm
      ensures HasTable(dirs, d, page) && dirs[d][Pdx(page)].frame in tables && Buffered !in At(d, page).perm
      ensures |tables[dirs[d][Pdx(page)].frame]| == ENTRIES && |references| == n == |isBuffered|
      ensures At(d, page).frame < n && references[At(d, page).frame] > 0
      ensures At(d, page).frame !in freeList && At(d, page).frame !in modifiedList && !isBuffered[At(d, page).frame]
    {
      hide Holders, HeapInjective, Homed, Separate;
      assert EntryFlagged(n, Frames(), At(d, page));
      MappedIsNotFree(n, Frames(), tables, dirs[d][Pdx(page)].frame, Ptx(page));
    }

    /** An entry that is not present is 0 or buffered. */
    lemma AbsentEntry(d: nat, page: nat)
      requires Valid() && Present !in At(d, page).perm
      ensures At(d, page) == EMPTY || Buffered in At(d, page).perm
    {
      hide Holders, HeapInjective, Homed, Separate, Counted, Listed;
      assert At(d, page) != EMPTY ==> EntryFlagged(n, Frames(), At(d, page));
    }

    lemma BufferedFrame(d: nat, page: nat)
      requires Valid() && IsPage(dirs, d, page) && Buffered in At(d, page).perm
      ensures HasTable(dirs, d, page) && dirs[d][Pdx(page)].frame in tables
      ensures |tables[dirs[d][Pdx(page)].frame]| == ENTRIES && |references| == n == |isBuffered|
      ensures At(d, page).frame < n && |Holders(tables, At(d, page).frame)| == 1
    {
      hide Holders, HeapInjective, Homed, Separate, Counted, Listed;
      assert EntryFlagged(n, Frames(), At(d, page));
      HolderCounts(tables, dirs[d][Pdx(page)].frame, Ptx(page));
    }

    /** A buffered page comes back: its frame leaves the list it waits on. */
    method RestorePage(d: nat, va: uint32)
      requires Valid() && IsPage(dirs, d, va / PAGE_SIZE) && Reachable(d, va / PAGE_SIZE) && !IsHeapPage(va / PAGE_SIZE)
      requires Buffered in At(d, va / PAGE_SIZE).perm
      modifies this`isBuffered, this`freeList, this`modifiedList, this`tables
      ensures Valid() && tables.Keys == old(tables.Keys)
      ensures var e := old(At(d, va / PAGE_SIZE));
        && e.frame < |old(isBuffered)| && Frames() == Unvictimised(old(Frames()), e)
        && At(d, va / PAGE_SIZE) == Entry(e.frame, e.perm + {Present} - {Buffered})
      ensures SameElsewhere(old(tables), dirs, tables, dirs, d, va / PAGE_SIZE)
    {
      hide Ok, Structured;
      ghost var page := va / PAGE_SIZE;
      BufferedFrame(d, page);
      var e, t := GetFrameInfo(d, va);
      RestoreKeepsOk(n, Frames(), tables, t, Ptx(page));
      WriteKeepsStructure(n, boot, tables, dirs, kdir, home, d, page, Entry(e.frame, Restored(e.perm)));
      tables := Write(tables, t, Ptx(va / PAGE_SIZE), Entry(e.frame, e.perm + {Present} - {Buffered}));
      isBuffered := isBuffered[e.frame := false];
      if Modified in e.perm {
        modifiedList := Without(modifiedList, e.frame);
      } else {
        freeList := Without(freeList, e.frame);
      }
    }

    /** The temporary mapping of pf_update_env_page at USER_LIMIT leaves no trace. */
    method MapForUpdate(d: nat, f: nat)
      requires Valid() && IsPage(dirs, d, USER_LIMIT_PAGE) && HasTable(dirs, d, USER_LIMIT_PAGE)
      requires At(d, USER_LIMIT_PAGE) == EMPTY
      requires Mappable(f) && 0 < references[f] < 0xFFFE
      modifies this
      ensures Valid() && Frames() == old(Frames())
      ensures tables == old(tables) && dirs == old(dirs) && startAdd == old(startAdd) && blocks == old(blocks) && home == old(home)
    {
      hide Valid, Ok, Structured, Stray;
      TableExists(d, USER_LIMIT_PAGE);
      HeldIsNotInHand(f);
      ghost var t := dirs[d][Pdx(USER_LIMIT_PAGE)].frame;
      assert tables[t][Ptx(USER_LIMIT_PAGE)] == EMPTY;
      var none: set<Perm> := {};
      var _ := MapFrame(d, f, USER_LIMIT_PAGE * PAGE_SIZE, none);
      TableExists(d, USER_LIMIT_PAGE);
      assert tables == Write(old(tables), t, Ptx(USER_LIMIT_PAGE), Entry(f, none + {Present}));
      references := references[f := references[f] + 1];
      ClearMapping(d, USER_LIMIT_PAGE * PAGE_SIZE);
      references := references[f := references[f] - 1];
      WriteTwice(old(tables), t, Ptx(USER_LIMIT_PAGE), Entry(f, none + {Present}), EMPTY);
      WriteSame(old(tables), t, Ptx(USER_LIMIT_PAGE), EMPTY);
      assert references == old(references) && inHand == old(inHand);
      assert Frames() == old(Frames()) && tables == old(tables);
      StaysValid();
    }

    twostate lemma StaysValid()
      requires old(Valid()) && Frames() == old(Frames()) && tables == old(tables) && dirs == old(dirs) && home == old(home)
      requires startAdd == old(startAdd) && blocks == old(blocks)
      ensures Valid()
    {
      hide Ok, Structured;
    }

    lemma HeldIsNotInHand(f: nat)
      requires Valid() && f < n == |references| && references[f] > 0
      ensures f !in inHand && inHand - {f} == inHand
    {
      hide Holders, Structured, Flagged, Counted;
    }

    /** kheap_virtual_address inverts kheap_physical_address on a mapped page exactly below the cursor. */
    method KheapRoundTrip(va: uint32) returns (back: uint32)
      requires Valid() && IsHeapPage(va / PAGE_SIZE) && At(kdir, va / PAGE_SIZE) != EMPTY
      ensures back == if RoundDown(va, PAGE_SIZE) < startAdd then RoundDown(va, PAGE_SIZE) else 0
      ensures back == va <==> va % PAGE_SIZE == 0 && va < startAdd
    {
      hide Ok, Separate, Homed, EntryAt;
      var pa := KheapPhysicalAddress(va);
      HeapFrameInRange(va / PAGE_SIZE);
      back := KheapVirtualAddress(pa);
      if back == 0 {
        assert Holds(At(kdir, va / PAGE_SIZE), pa / PAGE_SIZE);
        assert va / PAGE_SIZE >= startAdd / PAGE_SIZE;
      } else {
        assert back / PAGE_SIZE == va / PAGE_SIZE;
      }
    }

    lemma HeapFrameInRange(q: nat)
      requires Laid() && IsHeapPage(q) && At(kdir, q) != EMPTY
      ensures At(kdir, q).frame < n
    {
      hide Separate, HeapInjective, Homed;
    }
  }

  lemma NoneVacant(tables: Tables, dirs: Dirs, kdir: nat, lo: nat)
    ensures Vacant(tables, dirs, kdir, lo, lo - 1)
  {
  }

  lemma VacantShort(tables: Tables, dirs: Dirs, kdir: nat, lo: nat, hi: nat, p: int)
    requires Vacant(tables, dirs, kdir, lo, p) && hi <= p
    ensures Vacant(tables, dirs, kdir, lo, hi)
  {
  }

  lemma NewestGrows(blocks: seq<HeapBlock>, i: nat, va: uint32)
    requires i < |blocks|
    ensures NewestBlock(blocks[..i + 1], va)
         == if blocks[i].first == va then [blocks[i]] else NewestBlock(blocks[..i], va)
    ensures NewestBlock([], va) == []
  {
    assert blocks[..i + 1][..i] == blocks[..i];
  }
}

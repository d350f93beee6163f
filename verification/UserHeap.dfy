/** The user heap of lib/uheap.c: next fit over a table that records only where blocks start. */
module UserHeap {
  import opened Layout

  /** sizes[s] is the length in pages of the live block that starts at page s, 0 if none does. */
  ghost predicate Covered(sizes: seq<nat>, p: int) {
    exists s :: 0 <= s <= p && s < |sizes| && p < s + sizes[s]
  }

  ghost predicate WellFormed(sizes: seq<nat>, cursor: nat) {
    && |sizes| == HEAP_PAGES
    && cursor < HEAP_PAGES
    && (forall s :: 0 <= s < |sizes| ==> s + sizes[s] <= HEAP_PAGES)
    && (forall s, t :: 0 <= s < t < |sizes| && sizes[t] > 0 ==> s + sizes[s] <= t)
    && (forall s :: 0 <= s < cursor ==> s + sizes[s] <= cursor)
  }

  ghost predicate FreeRun(sizes: seq<nat>, k: nat, p: int) {
    0 <= p && p + k <= HEAP_PAGES && forall q :: p <= q < p + k ==> !Covered(sizes, q)
  }

  /** k free pages from p on that straddle neither the end of the heap nor the cursor. */
  ghost predicate Fits(sizes: seq<nat>, cursor: nat, k: nat, p: int) {
    FreeRun(sizes, k, p) && (p + k <= cursor || cursor <= p)
  }

  /** How many pages a walk that starts at the cursor passes before it reaches p. */
  function Rank(cursor: nat, p: int): int {
    if p >= cursor then p - cursor else p - cursor + HEAP_PAGES
  }

  ghost predicate FirstFit(sizes: seq<nat>, cursor: nat, k: nat, p: int) {
    && Fits(sizes, cursor, k, p)
    && forall q :: Fits(sizes, cursor, k, q) ==> Rank(cursor, p) <= Rank(cursor, q)
  }

  ghost predicate Visited(cursor: nat, wrapped: bool, p: int, q: int) {
    if wrapped then cursor <= q < HEAP_PAGES || 0 <= q < p else cursor <= q < p
  }

  /** No address the walk has left behind, apart from the current free run, can hold the request. */
  ghost predicate NothingBehind(sizes: seq<nat>, cursor: nat, k: nat, wrapped: bool, p: int, run: nat) {
    forall q :: Visited(cursor, wrapped, p, q) && !(p - run <= q < p) ==> !Fits(sizes, cursor, k, q)
  }

  /** Every page of the current run is free, and no block straddles the page the walk stands on. */
  ghost predicate Standing(sizes: seq<nat>, p: int, run: nat) {
    && (forall q :: p - run <= q < p ==> !Covered(sizes, q))
    && (forall s :: 0 <= s < p && s < |sizes| ==> s + sizes[s] <= p)
  }

  lemma StartWalk(sizes: seq<nat>, c: nat, k: nat)
    requires WellFormed(sizes, c)
    ensures Standing(sizes, c, 0) && NothingBehind(sizes, c, k, false, c, 0)
  {
  }

  lemma ExtendRun(sizes: seq<nat>, c: nat, k: nat, wrapped: bool, p: int, run: nat)
    requires WellFormed(sizes, c) && 0 <= p < HEAP_PAGES && sizes[p] == 0
    requires Standing(sizes, p, run) && NothingBehind(sizes, c, k, wrapped, p, run)
    ensures Standing(sizes, p + 1, run + 1) && NothingBehind(sizes, c, k, wrapped, p + 1, run + 1)
  {
  }

  /** A block at p ends the current run: neither the run nor the block can hold the request. */
  lemma SkipBlock(sizes: seq<nat>, c: nat, k: nat, wrapped: bool, p: int, run: nat)
    requires WellFormed(sizes, c) && 0 <= p < HEAP_PAGES && sizes[p] > 0 && run < k
    requires NothingBehind(sizes, c, k, wrapped, p, run)
    requires if wrapped then p < c else c <= p
    ensures Standing(sizes, p + sizes[p], 0) && NothingBehind(sizes, c, k, wrapped, p + sizes[p], 0)
    ensures if wrapped then p + sizes[p] <= c else p + sizes[p] <= HEAP_PAGES
  {
    forall q | Visited(c, wrapped, p + sizes[p], q) && p - run <= q < p + sizes[p]
      ensures !Fits(sizes, c, k, q)
    {
      assert Covered(sizes, if q < p then p else q);
    }
  }

  /** At the end of the heap the walk starts again from page 0 with an empty run. */
  lemma WrapAround(sizes: seq<nat>, c: nat, k: nat, p: int, run: nat)
    requires c <= HEAP_PAGES <= p && run < k
    requires NothingBehind(sizes, c, k, false, p, run)
    ensures Standing(sizes, 0, 0) && NothingBehind(sizes, c, k, true, 0, 0)
  {
  }

  /** The run that is long enough starts at the first fit. */
  lemma RunIsFirst(sizes: seq<nat>, c: nat, k: nat, wrapped: bool, p: int)
    requires NothingBehind(sizes, c, k, wrapped, p, k) && 0 < k <= p <= HEAP_PAGES && c < HEAP_PAGES
    requires if wrapped then p <= c else c <= p - k
    requires Standing(sizes, p, k)
    ensures FirstFit(sizes, c, k, p - k)
  {
    assert Fits(sizes, c, k, p - k);
  }

  /** Back at the cursor with too short a run: the request fits nowhere. */
  lemma WalkedAround(sizes: seq<nat>, c: nat, k: nat, run: nat)
    requires NothingBehind(sizes, c, k, true, c, run) && run < k && c < HEAP_PAGES
    ensures forall p :: !Fits(sizes, c, k, p)
  {
    forall p | 0 <= p && p + k <= HEAP_PAGES ensures !Fits(sizes, c, k, p) {
      assert Visited(c, true, c, p);
    }
  }

  /** One entry of uHeapArr: the address and size in bytes of the block that starts at its page. */
  datatype Block = Block(first: uint32, size: uint32)

  function Address(page: int): int { USER_HEAP_START + page * PAGE_SIZE }

  /** The entry uHeapArr[s] of a heap whose blocks are sizes. */
  function RecordOf(size: nat, s: int): (b: (int, int)) {
    if size == 0 then (0, 0) else (Address(s), size * PAGE_SIZE)
  }

  ghost predicate Records(sizes: seq<nat>, blocks: seq<Block>) {
    |blocks| == |sizes| && forall s :: 0 <= s < |sizes| ==> (blocks[s].first, blocks[s].size) == RecordOf(sizes[s], s)
  }

  /**
   * What one malloc of k pages does: the first fit after the cursor becomes a block and the new
   * cursor, unless it ends the heap; with no fit nothing changes and the result is NULL.
   */
  ghost predicate MallocStep(sizes: seq<nat>, cursor: nat, k: nat, sizes': seq<nat>, cursor': nat, addr: nat) {
    var p := (addr - USER_HEAP_START) / PAGE_SIZE;
    if addr == 0 then
      (forall q :: !Fits(sizes, cursor, k, q)) && sizes' == sizes && cursor' == cursor
    else
      && addr == Address(p) && 0 <= p < |sizes| && FirstFit(sizes, cursor, k, p)
      && sizes' == sizes[p := k] && cursor' == if p + k == HEAP_PAGES then 0 else p
  }

  ghost predicate FreeStep(sizes: seq<nat>, cursor: nat, addr: nat, sizes': seq<nat>, cursor': nat) {
    var p := (addr - USER_HEAP_START) / PAGE_SIZE;
    && 0 <= p < |sizes| && addr == Address(p) && sizes[p] > 0
    && sizes' == sizes[p := 0] && cursor' == cursor
  }

  lemma MallocKeepsWellFormed(sizes: seq<nat>, cursor: nat, k: nat, sizes': seq<nat>, cursor': nat, addr: nat)
    requires WellFormed(sizes, cursor) && k > 0 && MallocStep(sizes, cursor, k, sizes', cursor', addr)
    ensures WellFormed(sizes', cursor')
  {
    if addr != 0 {
      var p := (addr - USER_HEAP_START) / PAGE_SIZE;
      assert !Covered(sizes, p);
      forall t | p < t < HEAP_PAGES && sizes[t] > 0 ensures p + k <= t {
        if t < p + k { assert Covered(sizes, t); }
      }
    }
  }

  lemma FirstFitInHeap(sizes: seq<nat>, cursor: nat, k: nat, p: int)
    requires FirstFit(sizes, cursor, k, p)
    ensures 0 <= p && p + k <= HEAP_PAGES
  {
  }

  class Heap {
    var startAdd: uint32
    const checkList: array<nat>
    const uHeapArr: array<Block>

    ghost function Cursor(): int reads this { (startAdd - USER_HEAP_START) / PAGE_SIZE }

    ghost predicate Valid() reads this, checkList, uHeapArr {
      && startAdd >= USER_HEAP_START && startAdd % PAGE_SIZE == 0
      && checkList.Length == HEAP_PAGES == uHeapArr.Length
      && Records(checkList[..], uHeapArr[..])
      && 0 <= Cursor() < HEAP_PAGES && WellFormed(checkList[..], Cursor())
    }

    constructor ()
      ensures Valid() && fresh(checkList) && fresh(uHeapArr)
      ensures Cursor() == 0 && forall s :: 0 <= s < HEAP_PAGES ==> checkList[s] == 0
    {
      startAdd := USER_HEAP_START;
      checkList := new nat[HEAP_PAGES](_ => 0);
      uHeapArr := new Block[HEAP_PAGES](_ => Block(0, 0));
    }

    method Search(size: uint32) returns (found: bool, tmp: uint32)
      requires Valid()
      requires size > 0 && size % PAGE_SIZE == 0
      ensures found ==> tmp >= USER_HEAP_START && tmp % PAGE_SIZE == 0
      ensures found ==> FirstFit(checkList[..], Cursor(), size / PAGE_SIZE, (tmp - USER_HEAP_START) / PAGE_SIZE)
      ensures !found ==> forall p :: !Fits(checkList[..], Cursor(), size / PAGE_SIZE, p)
    {
      hide NothingBehind, FirstFit, Fits, Standing, WellFormed, Records;
      assert |checkList[..]| == HEAP_PAGES;
      var newAdd: uint32, newSize: uint32 := startAdd, 0;
      var flag := false;
      found, tmp := false, 0;
      var spacePages: uint32 := HEAP_PAGES;
      ghost var sizes, c, k := checkList[..], Cursor(), size / PAGE_SIZE;
      ghost var wrapped, p, run := false, c, 0;
      StartWalk(sizes, c, k);
      while spacePages != 0 && !found
        invariant newAdd == USER_HEAP_START + p * PAGE_SIZE && newSize == run * PAGE_SIZE
        invariant 0 <= p && run >= 0 && flag == (run > 0)
        invariant run > 0 ==> tmp == USER_HEAP_START + (p - run) * PAGE_SIZE
        invariant run <= (if wrapped then p else p - c)
        invariant wrapped ==> 0 <= p <= c && spacePages == c - p
        invariant !wrapped ==> c <= p <= HEAP_PAGES && spacePages == HEAP_PAGES - (p - c)
        invariant !found ==> p < HEAP_PAGES && run < k
        invariant Standing(sizes, p, run) && NothingBehind(sizes, c, k, wrapped, p, run)
        invariant found ==> run == k
        decreases spacePages
      {
        var page := (newAdd - USER_HEAP_START) / PAGE_SIZE;
        assert page == p;
        if checkList[page] == 0 {
          if !flag {
            flag := true;
            tmp := newAdd;
          }
          newSize := newSize + PAGE_SIZE;
          newAdd := newAdd + PAGE_SIZE;
          spacePages := spacePages - 1;
          ExtendRun(sizes, c, k, wrapped, p, run);
          p, run := p + 1, run + 1;
        } else {
          SkipBlock(sizes, c, k, wrapped, p, run);
          spacePages := spacePages - checkList[page];
          newAdd := newAdd + checkList[page] * PAGE_SIZE;
          flag, newSize := false, 0;
          p, run := p + sizes[p], 0;
        }
        if newSize >= size {
          found := true;
        } else if newAdd >= USER_HEAP_MAX {
          flag, newSize := false, 0;
          newAdd := USER_HEAP_START;
          WrapAround(sizes, c, k, p, run);
          wrapped, p, run := true, 0, 0;
        }
      }
      if found {
        RunIsFirst(sizes, c, k, wrapped, p);
      } else {
        WalkedAround(sizes, c, k, run);
      }
    }

    /** nextFitAlgo, up to the system call that fills the block. */
    method Place(size: uint32) returns (addr: uint32)
      requires Valid()
      requires size > 0 && size % PAGE_SIZE == 0
      modifies this, checkList, uHeapArr
      ensures Valid()
      ensures MallocStep(old(checkList[..]), old(Cursor()), size / PAGE_SIZE, checkList[..], Cursor(), addr)
    {
      hide WellFormed, FirstFit;
      var found, tmp := Search(size);
      if !found {
        return 0;
      }
      startAdd := tmp;
      addr := startAdd;
      var page := (startAdd - USER_HEAP_START) / PAGE_SIZE;
      FirstFitInHeap(old(checkList[..]), old(Cursor()), size / PAGE_SIZE, page);
      checkList[page] := size / PAGE_SIZE;
      uHeapArr[page] := Block(startAdd, size);
      if startAdd + size >= USER_HEAP_MAX {
        startAdd := USER_HEAP_START;
      }
      MallocKeepsWellFormed(old(checkList[..]), old(Cursor()), size / PAGE_SIZE, checkList[..], Cursor(), addr);
    }

    /** free, up to the system call that empties the block; size is what that call is given. */
    method Release(addr: uint32) returns (size: uint32)
      requires Valid()
      requires addr >= USER_HEAP_START && addr % PAGE_SIZE == 0 && addr < USER_HEAP_MAX
      requires checkList[(addr - USER_HEAP_START) / PAGE_SIZE] > 0
      modifies checkList, uHeapArr
      ensures Valid()
      ensures FreeStep(old(checkList[..]), old(Cursor()), addr, checkList[..], Cursor())
      ensures size == old(checkList[..])[(addr - USER_HEAP_START) / PAGE_SIZE] * PAGE_SIZE
    {
      var i := 0;
      ghost var page := (addr - USER_HEAP_START) / PAGE_SIZE;
      size := 0;
      while i < HEAP_PAGES
        invariant 0 <= i <= page
        invariant checkList[..] == old(checkList[..]) && uHeapArr[..] == old(uHeapArr[..])
      {
        if uHeapArr[i].first == addr {
          var x := (addr - USER_HEAP_START) / PAGE_SIZE;
          size := uHeapArr[i].size;
          uHeapArr[i] := Block(0, 0);
          checkList[x] := 0;
          break;
        }
        i := i + 1;
      }
    }
  }

  // ---- what holds over every run of mallocs and frees ----

  datatype State = State(sizes: seq<nat>, cursor: nat)

  ghost predicate Step(s: State, s': State) {
    || (exists k: nat, addr: nat :: k > 0 && MallocStep(s.sizes, s.cursor, k, s'.sizes, s'.cursor, addr))
    || (exists addr: nat :: FreeStep(s.sizes, s.cursor, addr, s'.sizes, s'.cursor))
  }

  ghost predicate IsRun(run: seq<State>) {
    && |run| > 0 && run[0] == State(seq(HEAP_PAGES, _ => 0), 0)
    && forall i :: 0 <= i < |run| - 1 ==> Step(run[i], run[i + 1])
  }

  lemma StepKeepsWellFormed(s: State, s': State)
    requires WellFormed(s.sizes, s.cursor) && Step(s, s')
    ensures WellFormed(s'.sizes, s'.cursor)
  {
    if k: nat, addr: nat :| k > 0 && MallocStep(s.sizes, s.cursor, k, s'.sizes, s'.cursor, addr) {
      MallocKeepsWellFormed(s.sizes, s.cursor, k, s'.sizes, s'.cursor, addr);
    }
  }

  lemma {:induction false} EveryRunWellFormed(run: seq<State>, i: nat)
    requires IsRun(run) && i < |run|
    ensures WellFormed(run[i].sizes, run[i].cursor)
  {
    hide Step;
    if i > 0 {
      EveryRunWellFormed(run, i - 1);
      StepKeepsWellFormed(run[i - 1], run[i]);
    }
  }

  /** After any run the live blocks lie in the heap, are pairwise disjoint, and none straddles the cursor. */
  lemma BlocksNeverOverlap(run: seq<State>, i: nat, s: nat, t: nat)
    requires IsRun(run) && i < |run| && s < t < |run[i].sizes|
    requires run[i].sizes[s] > 0 && run[i].sizes[t] > 0
    ensures Address(s) + run[i].sizes[s] * PAGE_SIZE <= Address(t)
    ensures Address(t) + run[i].sizes[t] * PAGE_SIZE <= USER_HEAP_MAX
    ensures !(s < run[i].cursor < s + run[i].sizes[s]) && !(t < run[i].cursor < t + run[i].sizes[t])
  {
    EveryRunWellFormed(run, i);
  }

  /** malloc says NULL although room exists exactly when every large enough free run straddles the cursor. */
  lemma NullDespiteRoom(sizes: seq<nat>, cursor: nat, k: nat, sizes': seq<nat>, cursor': nat, addr: nat)
    requires WellFormed(sizes, cursor) && k > 0 && MallocStep(sizes, cursor, k, sizes', cursor', addr)
    ensures addr == 0 <==> forall p :: FreeRun(sizes, k, p) ==> p < cursor < p + k
  {
    if addr != 0 {
      assert FreeRun(sizes, k, (addr - USER_HEAP_START) / PAGE_SIZE);
    }
    forall p | addr == 0 && FreeRun(sizes, k, p) ensures p < cursor < p + k {
      assert !Fits(sizes, cursor, k, p);
    }
  }

  /** Two one-page mallocs, then both freed in the same order. */
  function EmptyAgain(): seq<State> {
    var zeros := seq(HEAP_PAGES, _ => 0);
    [State(zeros, 0), State(zeros[0 := 1], 0), State(zeros[0 := 1][1 := 1], 1), State(zeros[1 := 1], 1), State(zeros, 1)]
  }

  /** After that run the heap is empty, yet a request for all of it is refused. */
  lemma EmptyHeapRefuses(sizes': seq<nat>, cursor': nat, addr: nat)
    requires var s := EmptyAgain()[4]; MallocStep(s.sizes, s.cursor, HEAP_PAGES, sizes', cursor', addr)
    ensures IsRun(EmptyAgain()) && FreeRun(EmptyAgain()[4].sizes, HEAP_PAGES, 0) && addr == 0
  {
    var run := EmptyAgain();
    var zeros := run[0].sizes;
    assert Covered(run[1].sizes, 0) by { assert run[1].sizes[0] == 1; }
    assert !Fits(run[1].sizes, 0, 1, 0) by { assert 0 <= 0 < 0 + 1; }
    assert FirstFit(run[0].sizes, 0, 1, 0) && FirstFit(run[1].sizes, 0, 1, 1);
    assert MallocStep(run[0].sizes, 0, 1, run[1].sizes, 0, Address(0));
    assert MallocStep(run[1].sizes, 0, 1, run[2].sizes, 1, Address(1));
    assert run[3].sizes == run[2].sizes[0 := 0] && run[4].sizes == run[3].sizes[1 := 0];
    assert FreeStep(run[2].sizes, 1, Address(0), run[3].sizes, 1);
    assert FreeStep(run[3].sizes, 1, Address(1), run[4].sizes, 1);
    assert IsRun(run);
    EveryRunWellFormed(run, 4);
    NullDespiteRoom(run[4].sizes, 1, HEAP_PAGES, sizes', cursor', addr);
  }

  // ---- what one malloc or free does to the pages, and where the next search starts ----

  /** A malloc that returns an address covers k free pages from there on, and nothing else. */
  lemma MallocCovers(sizes: seq<nat>, cursor: nat, k: nat, sizes': seq<nat>, cursor': nat, addr: nat, q: int)
    requires WellFormed(sizes, cursor) && k > 0 && MallocStep(sizes, cursor, k, sizes', cursor', addr) && addr != 0
    ensures USER_HEAP_START <= addr && addr + k * PAGE_SIZE <= USER_HEAP_MAX && addr % PAGE_SIZE == 0
    ensures addr <= Address(q) < addr + k * PAGE_SIZE ==> !Covered(sizes, q)
    ensures Covered(sizes', q) <==> Covered(sizes, q) || addr <= Address(q) < addr + k * PAGE_SIZE
  {
    var p := (addr - USER_HEAP_START) / PAGE_SIZE;
    if s: nat :| s <= q && s < |sizes| && q < s + sizes[s] {
      assert !Covered(sizes, p);
      assert sizes'[s] == sizes[s];
    }
    if p <= q < p + k { assert q < p + sizes'[p]; }
  }

  /** A free uncovers the pages of the block that starts at the address, and nothing else. */
  lemma FreeUncovers(sizes: seq<nat>, cursor: nat, addr: nat, sizes': seq<nat>, cursor': nat, q: int)
    requires WellFormed(sizes, cursor) && FreeStep(sizes, cursor, addr, sizes', cursor')
    ensures var k := sizes[(addr - USER_HEAP_START) / PAGE_SIZE];
      Covered(sizes', q) <==> Covered(sizes, q) && !(addr <= Address(q) < addr + k * PAGE_SIZE)
  {
    var p := (addr - USER_HEAP_START) / PAGE_SIZE;
    if s: nat :| s <= q && s < |sizes| && q < s + sizes[s] && s != p {
      assert sizes'[s] == sizes[s];
    }
  }

  /** A free, or a malloc that returned NULL. */
  ghost predicate Idle(s: State, s': State) {
    || (exists addr: nat :: FreeStep(s.sizes, s.cursor, addr, s'.sizes, s'.cursor))
    || (exists k: nat :: k > 0 && MallocStep(s.sizes, s.cursor, k, s'.sizes, s'.cursor, 0))
  }

  ghost predicate IdleRun(run: seq<State>) {
    forall i :: 0 <= i < |run| - 1 ==> Idle(run[i], run[i + 1])
  }

  lemma {:induction false} IdleKeepsCursor(run: seq<State>, i: nat)
    requires IdleRun(run) && i < |run| && WellFormed(run[0].sizes, run[0].cursor)
    ensures run[i].cursor == run[0].cursor && WellFormed(run[i].sizes, run[i].cursor)
  {
    hide WellFormed, Idle;
    if i > 0 {
      IdleKeepsCursor(run, i - 1);
      IdleStep(run[i - 1], run[i]);
    }
  }

  lemma IdleStep(s: State, s': State)
    requires WellFormed(s.sizes, s.cursor) && Idle(s, s')
    ensures s'.cursor == s.cursor && WellFormed(s'.sizes, s'.cursor)
  {
    StepKeepsWellFormed(s, s');
  }

  /** The answer is the lowest address, from low up, at which k pages are free. */
  ghost predicate LowestFrom(sizes: seq<nat>, k: nat, low: int, addr: int) {
    && addr >= low && (addr - USER_HEAP_START) % PAGE_SIZE == 0 && FreeRun(sizes, k, (addr - USER_HEAP_START) / PAGE_SIZE)
    && forall q :: FreeRun(sizes, k, q) && low <= Address(q) ==> addr <= Address(q)
  }

  /**
   * The next malloc, whatever was freed or refused in between. After a block that ends the heap it returns the lowest
   * address at which the request fits; after any other block it takes nothing below that block while something fits from
   * there on.
   */
  lemma NextSearchStarts(sizes: seq<nat>, cursor: nat, k: nat, addr: nat, run: seq<State>, k': nat, next: State, addr': nat)
    requires WellFormed(sizes, cursor) && k > 0 && k' > 0 && |run| > 0 && addr != 0
    requires MallocStep(sizes, cursor, k, run[0].sizes, run[0].cursor, addr) && IdleRun(run)
    requires var last := run[|run| - 1]; MallocStep(last.sizes, last.cursor, k', next.sizes, next.cursor, addr')
    ensures var now := run[|run| - 1].sizes;
      if addr + k * PAGE_SIZE == USER_HEAP_MAX then
        if exists q :: FreeRun(now, k', q) then LowestFrom(now, k', 0, addr') else addr' == 0
      else if exists q :: FreeRun(now, k', q) && addr <= Address(q) then
        LowestFrom(now, k', addr, addr')
      else if exists q :: FreeRun(now, k', q) && Address(q) + k' * PAGE_SIZE <= addr then
        LowestFrom(now, k', 0, addr') && addr' + k' * PAGE_SIZE <= addr
      else
        addr' == 0
  {
    hide WellFormed, Covered, Idle;
    MallocKeepsWellFormed(sizes, cursor, k, run[0].sizes, run[0].cursor, addr);
    IdleKeepsCursor(run, |run| - 1);
    var last := run[|run| - 1];
    var c := last.cursor;
    assert addr + k * PAGE_SIZE == USER_HEAP_MAX ==> c == 0;
    assert addr + k * PAGE_SIZE != USER_HEAP_MAX ==> addr == Address(c);
    StartsAtCursor(last.sizes, c, k', next, addr');
  }

  lemma StartsAtCursor(sizes: seq<nat>, c: nat, k: nat, next: State, addr: nat)
    requires k > 0 && c < HEAP_PAGES && MallocStep(sizes, c, k, next.sizes, next.cursor, addr)
    ensures if exists q :: FreeRun(sizes, k, q) && c <= q then
        LowestFrom(sizes, k, Address(c), addr)
      else if exists q :: FreeRun(sizes, k, q) && q + k <= c then
        LowestFrom(sizes, k, 0, addr) && addr + k * PAGE_SIZE <= Address(c)
      else
        addr == 0
  {
    hide FirstFit, Fits;
    if q :| FreeRun(sizes, k, q) && c <= q {
      RunFits(sizes, c, k, q);
      FirstIsLowest(sizes, c, k, (addr - USER_HEAP_START) / PAGE_SIZE, q);
    } else if q :| FreeRun(sizes, k, q) && q + k <= c {
      RunFits(sizes, c, k, q);
      FirstIsLowest(sizes, c, k, (addr - USER_HEAP_START) / PAGE_SIZE, q);
    } else if addr != 0 {
      FitRuns(sizes, c, k, (addr - USER_HEAP_START) / PAGE_SIZE);
      assert false;
    }
  }

  lemma RunFits(sizes: seq<nat>, c: nat, k: nat, q: int)
    requires FreeRun(sizes, k, q) && (q + k <= c || c <= q)
    ensures Fits(sizes, c, k, q)
  {
  }

  lemma FitRuns(sizes: seq<nat>, c: nat, k: nat, p: int)
    requires FirstFit(sizes, c, k, p)
    ensures FreeRun(sizes, k, p) && (p + k <= c || c <= p)
  {
  }

  /** The first fit is the lowest from the cursor on, or with none there the lowest of all. */
  lemma FirstIsLowest(sizes: seq<nat>, c: nat, k: nat, p: int, other: int)
    requires FirstFit(sizes, c, k, p) && k > 0 && Fits(sizes, c, k, other)
    ensures FreeRun(sizes, k, p) && (other >= c ==> p >= c)
    ensures p >= c ==> forall q :: FreeRun(sizes, k, q) && c <= q ==> p <= q
    ensures p < c ==> p + k <= c && forall q :: FreeRun(sizes, k, q) ==> p <= q
  {
    forall q | FreeRun(sizes, k, q) && (q + k <= c || c <= q) ensures Rank(c, p) <= Rank(c, q) && 0 <= q < HEAP_PAGES {
      assert Fits(sizes, c, k, q);
    }
    hide FreeRun;
  }

  // ---- a run whose second block ends the heap ----

  /** The heap is two blocks of 0x1000_0000 bytes; both are allocated and then freed. */
  function TwoHalves(): seq<State> {
    var zeros, half := seq(HEAP_PAGES, _ => 0), 0x1_0000;
    [State(zeros, 0), State(zeros[0 := half], 0), State(zeros[0 := half][half := half], 0),
     State(zeros[half := half], 0), State(zeros, 0)]
  }

  /** The second block sent the search back to the start of the heap, and there the next page comes from. */
  lemma BackToTheStart(next: State, addr: nat)
    requires var s := TwoHalves()[4]; MallocStep(s.sizes, s.cursor, 1, next.sizes, next.cursor, addr)
    ensures IsRun(TwoHalves()) && addr == 0x8000_0000
  {
    var run, half := TwoHalves(), 0x1_0000;
    var zeros := run[0].sizes;
    assert FirstFit(run[0].sizes, 0, half, 0) && FirstFit(run[4].sizes, 0, 1, 0);
    SecondHalf(run[1].sizes, half);
    assert MallocStep(run[0].sizes, 0, half, run[1].sizes, 0, Address(0));
    assert MallocStep(run[1].sizes, 0, half, run[2].sizes, 0, Address(half));
    assert run[3].sizes == run[2].sizes[0 := 0] && run[4].sizes == run[3].sizes[half := 0];
    assert FreeStep(run[2].sizes, 0, Address(0), run[3].sizes, 0);
    assert FreeStep(run[3].sizes, 0, Address(half), run[4].sizes, 0);
    assert IsRun(run);
    assert Fits(zeros, 0, 1, 0);
  }

  lemma SecondHalf(sizes: seq<nat>, half: nat)
    requires half == 0x1_0000 && sizes == seq(HEAP_PAGES, _ => 0)[0 := half]
    ensures FirstFit(sizes, 0, half, half)
  {
    forall q | 0 <= q < half ensures Covered(sizes, q) {
      assert q < 0 + sizes[0];
    }
    forall q | Fits(sizes, 0, half, q) ensures half <= q {
      assert q < half ==> q <= q < q + half && Covered(sizes, q);
    }
  }
}

/** The loading of program segments by env_create: kern/user_environment.c. */
module Loader {
  import opened Layout
  import opened PageFile
  import opened PageTables
  import opened WorkingSet

  /** struct ProgramSegment; file is the size_in_file bytes at ptr_start. */
  datatype Segment = Segment(va: uint32, file: seq<byte>, sizeInMemory: nat)

  /** A page-aligned segment whose file part is no larger than it is in memory, below the addresses pf_add_env_page asserts. */
  predicate Loadable(seg: Segment) {
    seg.va % PAGE_SIZE == 0 && |seg.file| <= seg.sizeInMemory && seg.va + seg.sizeInMemory < KERNEL_BASE
  }

  // ---- what loading is for ----

  /** Byte j of the segment: its file, then zeros. */
  function ByteAt(seg: Segment, j: nat): byte {
    if j < |seg.file| then seg.file[j] else 0
  }

  /** Page k of the segment. */
  function SegPage(seg: Segment, k: nat): (page: Page)
    ensures forall i :: 0 <= i < PAGE_SIZE ==> page[i] == ByteAt(seg, k * PAGE_SIZE + i)
  {
    var bytes := seq(PAGE_SIZE, i requires 0 <= i < PAGE_SIZE => ByteAt(seg, k * PAGE_SIZE + i));
    assert forall i :: 0 <= i < |bytes| ==> bytes[i] == ByteAt(seg, k * PAGE_SIZE + i);
    bytes
  }

  function FirstPage(seg: Segment): nat { seg.va / PAGE_SIZE }

  /** The pages the segment takes in memory. */
  function MemoryPages(seg: Segment): nat { (seg.sizeInMemory + PAGE_SIZE - 1) / PAGE_SIZE }

  /** The pages the loader writes: a last file page comes even if the file ends at a page boundary. */
  function WrittenPages(seg: Segment): nat {
    var last := |seg.file| / PAGE_SIZE + 1;
    if last < MemoryPages(seg) then MemoryPages(seg) else last
  }

  /** The loader writes past the segment exactly if the file ends at a page boundary and is all there is of it. */
  lemma WritesPastTheEnd(seg: Segment)
    requires Loadable(seg)
    ensures WrittenPages(seg) == MemoryPages(seg) + if |seg.file| == seg.sizeInMemory && |seg.file| % PAGE_SIZE == 0 then 1 else 0
  {
  }

  /** remainingLength, a difference of 32-bit numbers. */
  function RemainingLength(seg: Segment): uint32
    requires Loadable(seg)
  {
    (seg.va + seg.sizeInMemory - RoundUp(seg.va + |seg.file|, PAGE_SIZE)) % 0x1_0000_0000
  }

  lemma RoundUpAligned(p: nat, n: nat)
    requires p * PAGE_SIZE + n < KERNEL_BASE
    ensures RoundUp(p * PAGE_SIZE + n, PAGE_SIZE) == (p + (n + PAGE_SIZE - 1) / PAGE_SIZE) * PAGE_SIZE
  {
    var up := n + PAGE_SIZE - 1;
    assert (p * PAGE_SIZE + up) % PAGE_SIZE == up % PAGE_SIZE;
  }

  lemma WrappedRoundsToZero(x: uint32)
    requires x > 0x1_0000_0000 - PAGE_SIZE
    ensures RoundUp(x, PAGE_SIZE) == 0
  {
  }

  /** The pages up to the end of the file. */
  function FilePages(seg: Segment): nat { (|seg.file| + PAGE_SIZE - 1) / PAGE_SIZE }

  /**
   * The remaining area starts where the file's last page ends, and its length rounds up to what is left of the
   * segment: to nothing even when the memory size ends on the file's last page and the subtraction wraps.
   */
  lemma RemainingIsExact(seg: Segment)
    requires Loadable(seg)
    ensures RoundUp(seg.va + |seg.file|, PAGE_SIZE) == seg.va + FilePages(seg) * PAGE_SIZE
    ensures FilePages(seg) <= MemoryPages(seg)
    ensures RoundUp(RemainingLength(seg), PAGE_SIZE) == (MemoryPages(seg) - FilePages(seg)) * PAGE_SIZE
    ensures FilePages(seg) * PAGE_SIZE > seg.sizeInMemory ==> RemainingLength(seg) > 0x1_0000_0000 - PAGE_SIZE
  {
    hide RoundUp;
    var over := seg.sizeInMemory - FilePages(seg) * PAGE_SIZE;
    assert seg.va == seg.va / PAGE_SIZE * PAGE_SIZE;
    RoundUpAligned(seg.va / PAGE_SIZE, |seg.file|);
    assert (over + PAGE_SIZE - 1) / PAGE_SIZE == MemoryPages(seg) - FilePages(seg);
    assert RemainingLength(seg) == if over >= 0 then over else over + 0x1_0000_0000;
    if over >= 0 {
      RoundUpAligned(0, over);
    } else {
      WrappedRoundsToZero(over + 0x1_0000_0000);
    }
  }

  // ---- the page-file copy ----

  /** Page k of the segment once t zero pages have been written after those of the file. */
  function LoadedPage(seg: Segment, zero: Page, t: nat, k: nat): Page {
    if FilePages(seg) <= k < FilePages(seg) + t then zero else SegPage(seg, k)
  }

  function Image(seg: Segment, zero: Page, t: nat, n: nat): (pages: seq<Page>)
    ensures |pages| == n && forall k :: 0 <= k < n ==> pages[k] == LoadedPage(seg, zero, t, k)
  {
    if n == 0 then [] else Image(seg, zero, t, n - 1) + [LoadedPage(seg, zero, t, n - 1)]
  }

  /** How many zero pages the loader writes. */
  function TailPages(seg: Segment): nat {
    if MemoryPages(seg) < FilePages(seg) then 0 else MemoryPages(seg) - FilePages(seg)
  }

  /** What the loader makes of the segment. */
  function Written(seg: Segment, zero: Page): (pages: seq<Page>)
    ensures |pages| == WrittenPages(seg)
  {
    Image(seg, zero, TailPages(seg), WrittenPages(seg))
  }

  /** Every page of the segment comes out right exactly if the zero page is zero or the segment needs none. */
  lemma WrittenIsRight(seg: Segment, zero: Page)
    requires Loadable(seg)
    ensures MemoryPages(seg) <= WrittenPages(seg)
    ensures (forall k :: 0 <= k < MemoryPages(seg) ==> Written(seg, zero)[k] == SegPage(seg, k))
       <==> zero == Zeros() || MemoryPages(seg) == FilePages(seg)
  {
    hide SegPage, Image;
    var k := FilePages(seg);
    PastFile(seg, k);
    if k < MemoryPages(seg) { assert Written(seg, zero)[k] == zero; }
    forall k | 0 <= k < MemoryPages(seg) && (zero == Zeros() || MemoryPages(seg) == FilePages(seg))
      ensures Written(seg, zero)[k] == SegPage(seg, k)
    {
      if FilePages(seg) <= k { PastFile(seg, k); }
    }
  }

  lemma PastFile(seg: Segment, k: nat)
    requires k >= FilePages(seg)
    ensures SegPage(seg, k) == Zeros()
  {
  }

  /** The given pages, as pages of environment id from page p on. */
  ghost function Pages(id: nat, p: nat, pages: seq<Page>): Store {
    imap key: (nat, nat) | InRange(key, id, p, |pages|) :: Nth(pages, key.1 - p)
  }

  function Nth(pages: seq<Page>, i: int): Page {
    if 0 <= i < |pages| then pages[i] else Zeros()
  }

  ghost function WithPages(store: Store, id: nat, p: nat, pages: seq<Page>): Store {
    store + Pages(id, p, pages)
  }

  lemma InWithPages(store: Store, id: nat, p: nat, pages: seq<Page>, key: (nat, nat))
    ensures key in WithPages(store, id, p, pages) <==> key in store || InRange(key, id, p, |pages|)
    ensures InRange(key, id, p, |pages|) ==> WithPages(store, id, p, pages)[key] == Nth(pages, key.1 - p)
    ensures key in store && !InRange(key, id, p, |pages|) ==> WithPages(store, id, p, pages)[key] == store[key]
  {
  }

  /** Page k replaced, or added at the end. */
  function Put(pages: seq<Page>, k: nat, content: Page): (r: seq<Page>)
    requires k <= |pages|
    ensures |r| == if k == |pages| then k + 1 else |pages|
    ensures forall i :: 0 <= i < |r| ==> r[i] == if i == k then content else pages[i]
  {
    if k == |pages| then pages + [content] else pages[k := content]
  }

  /** The page file, and its number of free frames, with the given pages; the first is there from the start, at first zero. */
  ghost predicate Loading(store: Store, free: int, was: Store, free0: int, id: nat, p: nat, pages: seq<Page>) {
    && store == (if pages == [] then was[(id, p) := Zeros()] else WithPages(was, id, p, pages))
    && free + NewPages(was, id, p, if pages == [] then 1 else |pages|) == free0
  }

  lemma PageWritten(store: Store, free: int, store': Store, free': int, was: Store, free0: int, id: nat, p: nat,
                    pages: seq<Page>, k: nat, content: Page)
    requires Loading(store, free, was, free0, id, p, pages) && k <= |pages|
    requires store' == store[(id, p + k) := content]
    requires free' == free - if (id, p + k) in store then 0 else 1
    ensures Loading(store', free', was, free0, id, p, Put(pages, k, content))
  {
    hide WithPages;
    StoreWritten(store, was, id, p, pages, k, content);
  }

  lemma StoreWritten(store: Store, was: Store, id: nat, p: nat, pages: seq<Page>, k: nat, content: Page)
    requires store == (if pages == [] then was[(id, p) := Zeros()] else WithPages(was, id, p, pages)) && k <= |pages|
    ensures store[(id, p + k) := content] == WithPages(was, id, p, Put(pages, k, content))
    ensures (id, p + k) in store <==> (id, p + k) in was || pages == [] || k < |pages|
  {
    hide WithPages, InRange;
    var page, pages' := (id, p + k), Put(pages, k, content);
    hide Put;
    var store', later := store[page := content], WithPages(was, id, p, pages');
    forall key: (nat, nat) ensures (key in store' <==> key in later) && (key in store' ==> store'[key] == later[key]) {
      InWithPages(was, id, p, pages, key);
      InWithPages(was, id, p, pages', key);
      OneMoreInRange(key, id, p, |pages|, k);
    }
    InWithPages(was, id, p, pages, page);
    OneMoreInRange(page, id, p, |pages|, k);
  }

  lemma OneMoreInRange(key: (nat, nat), id: nat, p: nat, j: nat, k: nat)
    requires k <= j
    ensures InRange((id, p + k), id, p, j) <==> k < j
    ensures InRange(key, id, p, if k == j then k + 1 else j) <==> InRange(key, id, p, j) || key == (id, p + k)
    ensures !InRange(key, id, p, 0) && (InRange(key, id, p, j) ==> 0 <= key.1 - p < j)
    ensures InRange(key, id, p, j) && key.1 - p == k ==> key == (id, p + k)
  {
  }

  /** A page that finds no disk frame is one the store lacks. */
  lemma OutOfFrames(store: Store, was: Store, free0: int, id: nat, p: nat, pages: seq<Page>, k: nat, n: nat)
    requires Loading(store, 0, was, free0, id, p, pages) && k <= |pages| && k < n && (id, p + k) !in store
    ensures free0 < NewPages(was, id, p, n)
  {
    hide WithPages;
    StoreWritten(store, was, id, p, pages, k, Zeros());
    NewPagesGrow(was, id, p, k + 1, n);
  }

  /** pf_add_env_page of page k; the loader panics when the page file is full. */
  method AddPage(pf: PageFile, id: nat, seg: Segment, content: Page, ghost was: Store, ghost free0: int,
                 ghost pages: seq<Page>, k: nat)
    returns (panic: bool)
    requires pf.Valid() && Loadable(seg) && k <= |pages| && k < WrittenPages(seg)
    requires Loading(pf.View(), |pf.freeList|, was, free0, id, FirstPage(seg), pages)
    modifies pf
    ensures pf.Valid() && (old(pf.NoLeak()) ==> pf.NoLeak())
    ensures panic ==> free0 < NewPages(was, id, FirstPage(seg), WrittenPages(seg))
    ensures !panic ==> Loading(pf.View(), |pf.freeList|, was, free0, id, FirstPage(seg), Put(pages, k, content))
  {
    hide Loading, SegPage, Sound, Complete, NewPages, Content, Mapping, Put;
    InView(pf, id, FirstPage(seg) + k);
    ghost var store, free := pf.View(), |pf.freeList|;
    var code := pf.AddEnvPage(id, seg.va + k * PAGE_SIZE, content);
    panic := code == E_NO_PAGE_FILE_SPACE;
    if panic {
      OutOfFrames(store, was, free0, id, FirstPage(seg), pages, k, WrittenPages(seg));
    } else {
      PageWritten(store, free, pf.View(), |pf.freeList|, was, free0, id, FirstPage(seg), pages, k, content);
    }
  }

  /** A file page added at the end of the image. */
  lemma FilePageAdded(seg: Segment, zero: Page, k: nat)
    ensures Put(Image(seg, zero, 0, k), k, SegPage(seg, k)) == Image(seg, zero, 0, k + 1)
  {
    hide SegPage;
  }

  /** A zero page put after those written so far. */
  lemma ZeroPageAdded(seg: Segment, zero: Page, t: nat, j: nat)
    requires FilePages(seg) + t <= j
    ensures Put(Image(seg, zero, t, j), FilePages(seg) + t, zero)
         == Image(seg, zero, t + 1, if FilePages(seg) + t == j then j + 1 else j)
  {
    hide SegPage, Image, Put, FilePages;
  }

  /** The last page with file bytes, built up in the temporary page. */
  method LastPage(seg: Segment) returns (page: Page)
    ensures page == SegPage(seg, |seg.file| / PAGE_SIZE)
  {
    var n := |seg.file| / PAGE_SIZE;
    var ptr_temp_page := new byte[PAGE_SIZE](_ => 0);
    var i := 0;
    while n * PAGE_SIZE + i < |seg.file|
      invariant 0 <= i <= |seg.file| % PAGE_SIZE
      invariant forall j :: 0 <= j < PAGE_SIZE ==> ptr_temp_page[j] == if j < i then seg.file[n * PAGE_SIZE + j] else 0
    {
      ptr_temp_page[i] := seg.file[n * PAGE_SIZE + i];
      i := i + 1;
    }
    page := ptr_temp_page[..];
    assert page == SegPage(seg, n);
  }

  /** The pages the file fills. */
  method FullPages(pf: PageFile, id: nat, seg: Segment, ghost was: Store, ghost free0: int) returns (panic: bool)
    requires pf.Valid() && Loadable(seg) && Loading(pf.View(), |pf.freeList|, was, free0, id, FirstPage(seg), [])
    modifies pf
    ensures pf.Valid() && (old(pf.NoLeak()) ==> pf.NoLeak())
    ensures panic ==> free0 < NewPages(was, id, FirstPage(seg), WrittenPages(seg))
    ensures !panic ==> Loading(pf.View(), |pf.freeList|, was, free0, id, FirstPage(seg),
                               Image(seg, pf.zeroPage, 0, |seg.file| / PAGE_SIZE))
  {
    hide Loading, SegPage, Sound, Complete, NewPages, Put;
    panic := false;
    var k := 0;
    while (k + 1) * PAGE_SIZE <= |seg.file|
      invariant k * PAGE_SIZE <= |seg.file| && pf.Valid() && (old(pf.NoLeak()) ==> pf.NoLeak())
      invariant Loading(pf.View(), |pf.freeList|, was, free0, id, FirstPage(seg), Image(seg, pf.zeroPage, 0, k))
      decreases |seg.file| - k * PAGE_SIZE
    {
      FileSlice(seg, k);
      FilePageAdded(seg, pf.zeroPage, k);
      panic := AddPage(pf, id, seg, seg.file[k * PAGE_SIZE..(k + 1) * PAGE_SIZE], was, free0, Image(seg, pf.zeroPage, 0, k), k);
      if panic {
        return;
      }
      k := k + 1;
    }
    assert k == |seg.file| / PAGE_SIZE;
  }

  lemma FileSlice(seg: Segment, k: nat)
    requires (k + 1) * PAGE_SIZE <= |seg.file|
    ensures seg.file[k * PAGE_SIZE..(k + 1) * PAGE_SIZE] == SegPage(seg, k)
  {
  }

  lemma PageCounts(seg: Segment)
    requires Loadable(seg)
    ensures var n := |seg.file| / PAGE_SIZE;
      && n <= FilePages(seg) <= n + 1 && WrittenPages(seg) == if n + 1 < MemoryPages(seg) then MemoryPages(seg) else n + 1
    ensures seg.va + MemoryPages(seg) * PAGE_SIZE < KERNEL_BASE + PAGE_SIZE
  {
  }

  /** The pages between the end of the file and the end of the segment. */
  method ZeroTail(pf: PageFile, id: nat, seg: Segment, ghost was: Store, ghost free0: int) returns (panic: bool)
    requires pf.Valid() && Loadable(seg)
    requires Loading(pf.View(), |pf.freeList|, was, free0, id, FirstPage(seg),
                     Image(seg, pf.zeroPage, 0, |seg.file| / PAGE_SIZE + 1))
    modifies pf
    ensures pf.Valid() && (old(pf.NoLeak()) ==> pf.NoLeak())
    ensures panic ==> free0 < NewPages(was, id, FirstPage(seg), WrittenPages(seg))
    ensures !panic ==> Loading(pf.View(), |pf.freeList|, was, free0, id, FirstPage(seg), Written(seg, pf.zeroPage))
  {
    hide Loading, SegPage, Sound, Complete, NewPages, RoundUp, Mapping, FilePages, MemoryPages, WrittenPages, RemainingLength,
      Put, Image;
    RemainingIsExact(seg);
    PageCounts(seg);
    panic := false;
    var start_remaining_area, end := RoundUp(seg.va + |seg.file|, PAGE_SIZE), RoundUp(RemainingLength(seg), PAGE_SIZE);
    ghost var j, t := |seg.file| / PAGE_SIZE + 1, 0;
    var i := 0;
    while i < end
      invariant i == t * PAGE_SIZE && t <= TailPages(seg)
      invariant start_remaining_area == seg.va + (FilePages(seg) + t) * PAGE_SIZE
      invariant j == if FilePages(seg) + t < |seg.file| / PAGE_SIZE + 1 then |seg.file| / PAGE_SIZE + 1 else FilePages(seg) + t
      invariant pf.Valid() && (old(pf.NoLeak()) ==> pf.NoLeak())
      invariant Loading(pf.View(), |pf.freeList|, was, free0, id, FirstPage(seg), Image(seg, pf.zeroPage, t, j))
      decreases end - i
    {
      ZeroPageAdded(seg, pf.zeroPage, t, j);
      panic := AddZeroPage(pf, id, seg, was, free0, Image(seg, pf.zeroPage, t, j), FilePages(seg) + t, start_remaining_area);
      if panic {
        return;
      }
      i, t := i + PAGE_SIZE, t + 1;
      start_remaining_area := start_remaining_area + PAGE_SIZE;
      j := if j < FilePages(seg) + t then FilePages(seg) + t else j;
    }
  }

  /** pf_add_empty_env_page of a page past the file's last; the loader panics when the page file is full. */
  method AddZeroPage(pf: PageFile, id: nat, seg: Segment, ghost was: Store, ghost free0: int, ghost pages: seq<Page>,
                     ghost k: nat, va: uint32)
    returns (panic: bool)
    requires pf.Valid() && Loadable(seg) && k <= |pages| && k < WrittenPages(seg) && va == seg.va + k * PAGE_SIZE
    requires va < KERNEL_BASE && Loading(pf.View(), |pf.freeList|, was, free0, id, FirstPage(seg), pages)
    modifies pf
    ensures pf.Valid() && (old(pf.NoLeak()) ==> pf.NoLeak())
    ensures panic ==> free0 < NewPages(was, id, FirstPage(seg), WrittenPages(seg))
    ensures !panic ==> Loading(pf.View(), |pf.freeList|, was, free0, id, FirstPage(seg), Put(pages, k, pf.zeroPage))
  {
    hide Loading, SegPage, Sound, Complete, NewPages, Content, Mapping, FilePages, MemoryPages, WrittenPages, Put;
    assert va / PAGE_SIZE == FirstPage(seg) + k;
    InView(pf, id, FirstPage(seg) + k);
    ghost var store, free := pf.View(), |pf.freeList|;
    var code := pf.AddEmptyEnvPage(id, va, true);
    panic := code == E_NO_PAGE_FILE_SPACE;
    if panic {
      OutOfFrames(store, was, free0, id, FirstPage(seg), pages, k, WrittenPages(seg));
    } else {
      PageWritten(store, free, pf.View(), |pf.freeList|, was, free0, id, FirstPage(seg), pages, k, pf.zeroPage);
    }
  }

  /**
   * The part of env_create that writes one segment to the page file. It ends up holding the file's bytes, then zeros
   * to the end of a page, then copies of the zero page, and nothing else changes; the loader panics exactly when
   * there are too few disk frames for the new pages.
   */
  method WriteSegment(pf: PageFile, id: nat, seg: Segment) returns (panic: bool)
    requires pf.Valid() && Loadable(seg)
    modifies pf
    ensures pf.Valid() && (old(pf.NoLeak()) ==> pf.NoLeak())
    ensures panic <==> |old(pf.freeList)| < NewPages(old(pf.View()), id, FirstPage(seg), WrittenPages(seg))
    ensures !panic ==> pf.View() == WithPages(old(pf.View()), id, FirstPage(seg), Written(seg, pf.zeroPage))
    ensures !panic ==> |pf.freeList| == |old(pf.freeList)| - NewPages(old(pf.View()), id, FirstPage(seg), WrittenPages(seg))
  {
    hide SegPage, Sound, Complete, NewPages, Loading, Put;
    ghost var was, free0 := pf.View(), |pf.freeList|;
    InView(pf, id, FirstPage(seg));
    var code := pf.AddEnvPage(id, seg.va, Zeros());
    panic := code == E_NO_PAGE_FILE_SPACE;
    FirstWritten(was, id, seg, free0);
    if panic {
      return;
    }
    assert Loading(pf.View(), |pf.freeList|, was, free0, id, FirstPage(seg), []);
    panic := FullPages(pf, id, seg, was, free0);
    if panic {
      return;
    }
    var last := LastPage(seg);
    var n := |seg.file| / PAGE_SIZE;
    FilePageAdded(seg, pf.zeroPage, n);
    panic := AddPage(pf, id, seg, last, was, free0, Image(seg, pf.zeroPage, 0, n), n);
    if panic {
      return;
    }
    panic := ZeroTail(pf, id, seg, was, free0);
    if !panic {
      Loaded(pf.View(), |pf.freeList|, was, free0, id, seg, pf.zeroPage);
    }
  }

  lemma FirstWritten(was: Store, id: nat, seg: Segment, free0: nat)
    ensures var new1 := if (id, FirstPage(seg)) in was then 0 else 1;
      && (free0 >= new1 ==>
            Loading(was[(id, FirstPage(seg)) := Zeros()], free0 - new1, was, free0, id, FirstPage(seg), []))
      && (free0 < new1 ==> free0 < NewPages(was, id, FirstPage(seg), WrittenPages(seg)))
  {
    NewPagesGrow(was, id, FirstPage(seg), 1, WrittenPages(seg));
  }

  lemma Loaded(store: Store, free: nat, was: Store, free0: int, id: nat, seg: Segment, zero: Page)
    requires Loading(store, free, was, free0, id, FirstPage(seg), Written(seg, zero))
    ensures store == WithPages(was, id, FirstPage(seg), Written(seg, zero))
    ensures free0 == free + NewPages(was, id, FirstPage(seg), WrittenPages(seg))
  {
    hide WithPages;
  }

  // ---- the pages the segment starts with in memory ----

  /**
   * The pages come in from the start of the segment, and each holds part of it. One stays out only when the slots are
   * used up, or when six pages of a segment at 0x200000 are in and the program is not tpp.
   */
  ghost predicate CountFits(seg: Segment, remaining: nat, tpp: bool, n: nat) {
    && n <= remaining && (n > 0 ==> (n - 1) * PAGE_SIZE < seg.sizeInMemory)
    && (seg.va == 0x20_0000 && !tpp ==> n <= 6)
    && (n * PAGE_SIZE < seg.sizeInMemory && n < remaining ==> seg.va == 0x20_0000 && !tpp && n == 6)
  }

  /** At most six pages of a segment at 0x200000, unless the program is tpp. */
  function ResidentPages(seg: Segment, remaining: nat, tpp: bool): (n: nat)
    ensures n <= remaining && n <= MemoryPages(seg)
  {
    var limit := if seg.va == 0x20_0000 && !tpp && remaining > 6 then 6 else remaining;
    if MemoryPages(seg) < limit then MemoryPages(seg) else limit
  }

  /** Those conditions leave one count. */
  lemma OneCountFits(seg: Segment, remaining: nat, tpp: bool, n: nat)
    ensures CountFits(seg, remaining, tpp, n) <==> n == ResidentPages(seg, remaining, tpp)
  {
    if n < MemoryPages(seg) {
      assert n * PAGE_SIZE < seg.sizeInMemory;
    } else if n > MemoryPages(seg) {
      assert (n - 1) * PAGE_SIZE >= seg.sizeInMemory;
    }
  }

  /** The working set with n entries for the segment from slot hand on. */
  ghost predicate SlotsFilled(was: seq<Slot>, slots: seq<Slot>, seg: Segment, hand: nat, n: nat) {
    && |slots| == |was| && Loadable(seg) && n <= MemoryPages(seg)
    && forall i :: 0 <= i < |slots| ==>
         if hand <= i < hand + n then !slots[i].empty && slots[i].va == seg.va + (i - hand) * PAGE_SIZE && slots[i].timeStamp == 0
         else slots[i] == was[i]
  }

  /**
   * program_segment_alloc_map_copy_workingset: the first pages get working-set entries and their contents. memory
   * is what they hold, from virtual_address up; their frames and tables are those of Memory.
   */
  method AllocMapCopy(ws: array<Slot>, hand: nat, seg: Segment, remaining: nat, tpp: bool)
    returns (loaded: nat, last: nat, memory: array<byte>)
    requires Loadable(seg) && hand + remaining < ws.Length
    modifies ws
    ensures loaded == ResidentPages(seg, remaining, tpp) && CountFits(seg, remaining, tpp, loaded) && last == hand + loaded
    ensures SlotsFilled(old(ws[..]), ws[..], seg, hand, loaded)
    ensures memory.Length == loaded * PAGE_SIZE
    ensures forall k :: 0 <= k < loaded ==> memory[k * PAGE_SIZE..(k + 1) * PAGE_SIZE] == SegPage(seg, k)
  {
    hide SegPage, SlotsFilled, CountFits;
    loaded, last := FillSlots(ws, hand, seg, remaining, tpp);
    memory := CopyIn(seg, loaded);
    ghost var bytes := memory[..];
    forall k | 0 <= k < loaded ensures memory[k * PAGE_SIZE..(k + 1) * PAGE_SIZE] == SegPage(seg, k) {
      PageOfBytes(seg, bytes, k);
      assert bytes[k * PAGE_SIZE..(k + 1) * PAGE_SIZE] == memory[k * PAGE_SIZE..(k + 1) * PAGE_SIZE];
    }
  }

  /** Its loop over the pages to load. */
  method FillSlots(ws: array<Slot>, hand: nat, seg: Segment, remaining: nat, tpp: bool) returns (loaded: nat, last: nat)
    requires Loadable(seg) && hand + remaining < ws.Length
    modifies ws
    ensures loaded == ResidentPages(seg, remaining, tpp) && CountFits(seg, remaining, tpp, loaded) && last == hand + loaded
    ensures SlotsFilled(old(ws[..]), ws[..], seg, hand, loaded)
  {
    var limit := remaining;
    if seg.va == 0x20_0000 && !tpp {
      limit := if remaining < 6 then remaining else 6;
    }
    loaded, last := 0, hand;
    EndPage(seg);
    hide RoundUp;
    var end_vaddr := RoundUp(seg.va + seg.sizeInMemory, PAGE_SIZE);
    while seg.va + loaded * PAGE_SIZE < end_vaddr && loaded < limit
      invariant loaded <= limit && loaded <= MemoryPages(seg) && last == hand + loaded
      invariant SlotsFilled(old(ws[..]), ws[..], seg, hand, loaded)
      decreases limit - loaded
    {
      ws[last] := Slot(seg.va + loaded * PAGE_SIZE, false, 0);
      SmallRemainder(last + 1, ws.Length);
      last := (last + 1) % ws.Length;
      loaded := loaded + 1;
    }
    OneCountFits(seg, remaining, tpp, loaded);
  }

  lemma EndPage(seg: Segment)
    requires Loadable(seg)
    ensures RoundUp(seg.va + seg.sizeInMemory, PAGE_SIZE) == seg.va + MemoryPages(seg) * PAGE_SIZE
  {
    RoundUpAligned(seg.va / PAGE_SIZE, seg.sizeInMemory);
  }

  lemma PageOfBytes(seg: Segment, bytes: seq<byte>, k: nat)
    requires (k + 1) * PAGE_SIZE <= |bytes| && forall j :: 0 <= j < |bytes| ==> bytes[j] == ByteAt(seg, j)
    ensures bytes[k * PAGE_SIZE..(k + 1) * PAGE_SIZE] == SegPage(seg, k)
  {
  }

  /** The two copying loops: file bytes while there are any, then zeros up to the end of the last resident page. */
  method CopyIn(seg: Segment, loaded: nat) returns (memory: array<byte>)
    ensures memory.Length == loaded * PAGE_SIZE && fresh(memory)
    ensures forall j :: 0 <= j < memory.Length ==> memory[j] == ByteAt(seg, j)
  {
    memory := new byte[loaded * PAGE_SIZE];
    var dst := 0;
    while dst < memory.Length && dst < |seg.file|
      invariant 0 <= dst <= memory.Length
      invariant forall j :: 0 <= j < dst ==> memory[j] == ByteAt(seg, j)
    {
      memory[dst] := seg.file[dst];
      dst := dst + 1;
    }
    while dst < memory.Length
      invariant 0 <= dst <= memory.Length && (dst < memory.Length ==> dst >= |seg.file|)
      invariant forall j :: 0 <= j < dst ==> memory[j] == ByteAt(seg, j)
    {
      memory[dst] := 0;
      dst := dst + 1;
    }
  }

  /** The page file has this content for the page. */
  ghost predicate Agrees(store: Store, id: nat, page: nat, content: Page) {
    (id, page) in store && store[(id, page)] == content
  }

  /** The first n pages of the segment. */
  function SegPages(seg: Segment, n: nat): (pages: seq<Page>)
    ensures |pages| == n && forall k :: 0 <= k < n ==> pages[k] == SegPage(seg, k)
  {
    if n == 0 then [] else SegPages(seg, n - 1) + [SegPage(seg, n - 1)]
  }

  /** Memory, page by page. */
  function Split(bytes: seq<byte>, n: nat): (pages: seq<Page>)
    requires |bytes| == n * PAGE_SIZE
    ensures |pages| == n && forall k :: 0 <= k < n ==> pages[k] == bytes[k * PAGE_SIZE..(k + 1) * PAGE_SIZE]
  {
    seq(n, k requires 0 <= k < n => bytes[k * PAGE_SIZE..(k + 1) * PAGE_SIZE])
  }

  lemma InLoadedPages(store: Store, seg: Segment, zero: Page, id: nat, k: nat)
    requires k < MemoryPages(seg)
    ensures k < WrittenPages(seg)
    ensures var loaded := WithPages(store, id, FirstPage(seg), Written(seg, zero));
      (id, FirstPage(seg) + k) in loaded && loaded[(id, FirstPage(seg) + k)] == Written(seg, zero)[k]
  {
    hide WithPages, SegPage, Image;
    InWithPages(store, id, FirstPage(seg), Written(seg, zero), (id, FirstPage(seg) + k));
  }

  /**
   * One turn of the segment loop of env_create. Every page in memory agrees with its page-file copy, provided the
   * zero page is zero where that copy comes from it.
   */
  method LoadSegment(pf: PageFile, id: nat, seg: Segment, ws: array<Slot>, hand: nat, remaining: nat, tpp: bool)
    returns (panic: bool, loaded: nat, last: nat, contents: seq<Page>)
    requires pf.Valid() && Loadable(seg) && hand + remaining < ws.Length
    modifies pf, ws
    ensures pf.Valid() && (old(pf.NoLeak()) ==> pf.NoLeak())
    ensures panic <==> |old(pf.freeList)| < NewPages(old(pf.View()), id, FirstPage(seg), WrittenPages(seg))
    ensures !panic ==> pf.View() == WithPages(old(pf.View()), id, FirstPage(seg), Written(seg, pf.zeroPage))
    ensures !panic ==> |pf.freeList| == |old(pf.freeList)| - NewPages(old(pf.View()), id, FirstPage(seg), WrittenPages(seg))
    ensures loaded == ResidentPages(seg, remaining, tpp) && CountFits(seg, remaining, tpp, loaded) && last == hand + loaded
    ensures SlotsFilled(old(ws[..]), ws[..], seg, hand, loaded) && contents == SegPages(seg, loaded)
    ensures !panic ==> forall k :: 0 <= k < loaded ==>
      (Agrees(pf.View(), id, FirstPage(seg) + k, contents[k]) <==> k < FilePages(seg) || pf.zeroPage == Zeros())
  {
    hide SegPage, Sound, Complete, NewPages, SlotsFilled, WrittenPages, WithPages, Mapping, Written, FilePages, CountFits;
    var memory;
    loaded, last, memory := AllocMapCopy(ws, hand, seg, remaining, tpp);
    contents := Split(memory[..], loaded);
    assert contents == SegPages(seg, loaded);
    panic := WriteSegment(pf, id, seg);
    if !panic {
      forall k | 0 <= k < loaded
        ensures Agrees(pf.View(), id, FirstPage(seg) + k, contents[k]) <==> k < FilePages(seg) || pf.zeroPage == Zeros()
      {
        InLoadedPages(old(pf.View()), seg, pf.zeroPage, id, k);
        WrittenPage(seg, pf.zeroPage, k);
      }
    }
  }

  /** A page of the segment is written right if the file reaches it or the zero page is zero, and only then. */
  lemma WrittenPage(seg: Segment, zero: Page, k: nat)
    requires k < MemoryPages(seg) && k < WrittenPages(seg)
    ensures Written(seg, zero)[k] == SegPage(seg, k) <==> k < FilePages(seg) || zero == Zeros()
  {
    hide SegPage, Image;
    if k >= FilePages(seg) { PastFile(seg, k); }
  }

  // ---- the whole program ----

  ghost function AllLoaded(store: Store, zero: Page, id: nat, segs: seq<Segment>): Store {
    if segs == [] then store
    else
      var last := segs[|segs| - 1];
      WithPages(AllLoaded(store, zero, id, segs[..|segs| - 1]), id, FirstPage(last), Written(last, zero))
  }

  function SegSlots(seg: Segment, n: nat): (slots: seq<Slot>)
    requires Loadable(seg) && n <= MemoryPages(seg)
    ensures |slots| == n
    ensures forall i :: 0 <= i < n ==> seg.va + i * PAGE_SIZE < 0x1_0000_0000 && slots[i] == Slot(seg.va + i * PAGE_SIZE, false, 0)
  {
    if n == 0 then [] else SegSlots(seg, n - 1) + [Slot(seg.va + (n - 1) * PAGE_SIZE, false, 0)]
  }

  /** The slots the segments take of a working set with room for size pages. */
  function ProgramSlots(segs: seq<Segment>, size: nat, tpp: bool): (slots: seq<Slot>)
    requires forall seg :: seg in segs ==> Loadable(seg)
    ensures |slots| <= size
  {
    if segs == [] then []
    else
      var slots, last := ProgramSlots(segs[..|segs| - 1], size, tpp), segs[|segs| - 1];
      slots + SegSlots(last, ResidentPages(last, size - |slots|, tpp))
  }

  lemma SlotsAppended(was: seq<Slot>, slots: seq<Slot>, seg: Segment, hand: nat, n: nat)
    requires SlotsFilled(was, slots, seg, hand, n) && hand + n <= |was|
    ensures slots[..hand + n] == was[..hand] + SegSlots(seg, n) && slots[hand + n..] == was[hand + n..]
  {
  }

  lemma SuffixKept(first: seq<Slot>, second: seq<Slot>, third: seq<Slot>, hand: nat, last: nat)
    requires hand <= last <= |first| == |second| == |third|
    requires second[hand..] == first[hand..] && third[last..] == second[last..]
    ensures third[last..] == first[last..]
  {
    assert second[last..] == second[hand..][last - hand..];
    assert first[last..] == first[hand..][last - hand..];
  }

  /** The contents of the pages in those slots. */
  function ProgramPages(segs: seq<Segment>, size: nat, tpp: bool): (pages: seq<Page>)
    requires forall seg :: seg in segs ==> Loadable(seg)
  {
    if segs == [] then []
    else
      var slots, last := ProgramSlots(segs[..|segs| - 1], size, tpp), segs[|segs| - 1];
      ProgramPages(segs[..|segs| - 1], size, tpp) + SegPages(last, ResidentPages(last, size - |slots|, tpp))
  }

  /** How many disk frames the segments take, each counted against the store it finds. */
  ghost function FramesNeeded(store: Store, zero: Page, id: nat, segs: seq<Segment>): nat {
    if segs == [] then 0
    else
      var init, last := segs[..|segs| - 1], segs[|segs| - 1];
      FramesNeeded(store, zero, id, init)
      + NewPages(AllLoaded(store, zero, id, init), id, FirstPage(last), WrittenPages(last))
  }

  lemma {:induction false} PrefixNeedsLess(store: Store, zero: Page, id: nat, segs: seq<Segment>, i: nat)
    requires i <= |segs|
    ensures FramesNeeded(store, zero, id, segs[..i]) <= FramesNeeded(store, zero, id, segs)
    decreases |segs|
  {
    hide NewPages, AllLoaded, WrittenPages, FirstPage;
    if i < |segs| {
      PrefixNeedsLess(store, zero, id, segs[..|segs| - 1], i);
      assert segs[..|segs| - 1][..i] == segs[..i];
    } else {
      assert segs[..i] == segs;
    }
  }

  /** The slot that page k of segment i gets, if it is resident. */
  function SlotOf(segs: seq<Segment>, i: nat, k: nat, size: nat, tpp: bool): (slot: nat)
    requires i < |segs| && forall seg :: seg in segs ==> Loadable(seg)
  {
    |ProgramSlots(segs[..i], size, tpp)| + k
  }

  predicate IsResident(segs: seq<Segment>, i: nat, k: nat, size: nat, tpp: bool)
    requires i < |segs| && forall seg :: seg in segs ==> Loadable(seg)
  {
    k < ResidentPages(segs[i], size - |ProgramSlots(segs[..i], size, tpp)|, tpp)
  }

  lemma ProgramUnfolds(segs: seq<Segment>, size: nat, tpp: bool)
    requires |segs| > 0 && forall seg :: seg in segs ==> Loadable(seg)
    ensures var init, last := segs[..|segs| - 1], segs[|segs| - 1];
      && Loadable(last) && (forall seg :: seg in init ==> Loadable(seg))
      && var n := ResidentPages(last, size - |ProgramSlots(init, size, tpp)|, tpp);
         && ProgramSlots(segs, size, tpp) == ProgramSlots(init, size, tpp) + SegSlots(last, n)
         && ProgramPages(segs, size, tpp) == ProgramPages(init, size, tpp) + SegPages(last, n)
  {
    hide SegSlots, SegPages, ResidentPages, Loadable;
  }

  lemma {:induction false} SameLength(segs: seq<Segment>, size: nat, tpp: bool)
    requires forall seg :: seg in segs ==> Loadable(seg)
    ensures |ProgramPages(segs, size, tpp)| == |ProgramSlots(segs, size, tpp)|
  {
    hide SegPage, Loadable;
    if segs != [] { SameLength(segs[..|segs| - 1], size, tpp); }
  }

  /** That slot names the page and holds its bytes. */
  lemma {:induction false} ResidentPage(segs: seq<Segment>, i: nat, k: nat, size: nat, tpp: bool)
    requires i < |segs| && forall seg :: seg in segs ==> Loadable(seg)
    requires IsResident(segs, i, k, size, tpp)
    ensures |ProgramPages(segs, size, tpp)| == |ProgramSlots(segs, size, tpp)|
    ensures SlotOf(segs, i, k, size, tpp) < |ProgramSlots(segs, size, tpp)| && k < MemoryPages(segs[i])
    ensures ProgramSlots(segs, size, tpp)[SlotOf(segs, i, k, size, tpp)].va == segs[i].va + k * PAGE_SIZE
    ensures ProgramPages(segs, size, tpp)[SlotOf(segs, i, k, size, tpp)] == SegPage(segs[i], k)
    decreases |segs|
  {
    hide SegPage, Loadable, ProgramSlots, ProgramPages, SegSlots, SegPages, ResidentPages, MemoryPages;
    var init := segs[..|segs| - 1];
    ProgramUnfolds(segs, size, tpp);
    SameLength(segs, size, tpp);
    SameLength(init, size, tpp);
    if i < |init| {
      assert init[..i] == segs[..i];
      ResidentPage(init, i, k, size, tpp);
    } else {
      assert segs[..i] == init;
    }
  }

  /** The page-file copy of a resident page agrees with the page exactly if it came out right and survived. */
  ghost predicate ProgramAgrees(store: Store, zero: Page, id: nat, segs: seq<Segment>, size: nat, tpp: bool, contents: seq<Page>)
    requires forall seg :: seg in segs ==> Loadable(seg)
  {
    forall i: nat, k: nat :: i < |segs| && IsResident(segs, i, k, size, tpp) ==>
      && SlotOf(segs, i, k, size, tpp) < |contents|
      && (Agrees(store, id, FirstPage(segs[i]) + k, contents[SlotOf(segs, i, k, size, tpp)]) <==> Survives(segs, zero, i, k))
  }

  /**
   * The segments of env_create, one after the other, over a working set that keeps one slot for the stack. The
   * loader panics exactly when the page file has too few frames for all of them. For segments that share no page the
   * page-file copy of a resident page agrees with it exactly if that page came out right and survived.
   */
  method LoadSegments(pf: PageFile, id: nat, segs: seq<Segment>, ws: array<Slot>, tpp: bool)
    returns (panic: bool, last: nat, contents: seq<Page>)
    requires pf.Valid() && ws.Length > 0 && forall seg :: seg in segs ==> Loadable(seg)
    modifies pf, ws
    ensures pf.Valid() && (old(pf.NoLeak()) ==> pf.NoLeak())
    ensures panic <==> |old(pf.freeList)| < FramesNeeded(old(pf.View()), pf.zeroPage, id, segs)
    ensures !panic ==> pf.View() == AllLoaded(old(pf.View()), pf.zeroPage, id, segs)
    ensures !panic ==> |pf.freeList| == |old(pf.freeList)| - FramesNeeded(old(pf.View()), pf.zeroPage, id, segs)
    ensures last < ws.Length && ws[..][last..] == old(ws[..])[last..]
    ensures !panic ==> ws[..last] == ProgramSlots(segs, ws.Length - 1, tpp) && contents == ProgramPages(segs, ws.Length - 1, tpp)
    ensures !panic && Disjoint(segs) ==> ProgramAgrees(pf.View(), pf.zeroPage, id, segs, ws.Length - 1, tpp, contents)
  {
    hide SegPage, Sound, Complete, NewPages, SlotsFilled, WithPages, WrittenPages, Written, SegSlots, SegPages, ResidentPages, MemoryPages,
      Mapping, AllLoaded, ProgramSlots, ProgramPages, FramesNeeded, Disjoint, Survives, ProgramAgrees;
    NoSegments(pf.View(), pf.zeroPage, id, segs, ws.Length - 1, tpp);
    panic, last, contents := false, 0, [];
    var remaining_ws_pages := ws.Length - 1;
    var i := 0;
    while i < |segs|
      invariant 0 <= i <= |segs| && pf.Valid() && (old(pf.NoLeak()) ==> pf.NoLeak())
      invariant last + remaining_ws_pages == ws.Length - 1 && remaining_ws_pages >= 0
      invariant pf.View() == AllLoaded(old(pf.View()), pf.zeroPage, id, segs[..i])
      invariant |pf.freeList| + FramesNeeded(old(pf.View()), pf.zeroPage, id, segs[..i]) == |old(pf.freeList)|
      invariant ws[..last] == ProgramSlots(segs[..i], ws.Length - 1, tpp) && ws[..][last..] == old(ws[..])[last..]
      invariant contents == ProgramPages(segs[..i], ws.Length - 1, tpp)
    {
      var loaded, pages;
      ghost var was, hand := ws[..], last;
      OneMoreSegment(old(pf.View()), pf.zeroPage, id, segs, i, ws.Length - 1, tpp);
      panic, loaded, last, pages := LoadSegment(pf, id, segs[i], ws, last, remaining_ws_pages, tpp);
      SlotsAppended(was, ws[..], segs[i], hand, loaded);
      SuffixKept(old(ws[..]), was, ws[..], hand, last);
      if panic {
        PrefixNeedsLess(old(pf.View()), pf.zeroPage, id, segs, i + 1);
        return;
      }
      contents := contents + pages;
      remaining_ws_pages := remaining_ws_pages - loaded;
      i := i + 1;
    }
    assert segs[..i] == segs;
    if Disjoint(segs) {
      ResidentsAgree(old(pf.View()), pf.zeroPage, id, segs, ws.Length - 1, tpp);
    }
  }

  // ---- the stack ----

  const STACK_PAGE := USTACKTOP / PAGE_SIZE - 1

  /** The page file after the page of the stack, which it may have no room for: the error is ignored. */
  ghost function WithStack(store: Store, zero: Page, id: nat, room: bool): Store {
    if room || (id, STACK_PAGE) in store then store[(id, STACK_PAGE) := zero] else store
  }

  /** The end of env_create: one page of zeros for the stack, in the next slot of the working set. */
  method LoadStack(pf: PageFile, id: nat, ws: array<Slot>, hand: nat) returns (last: nat, content: Page)
    requires pf.Valid() && hand < ws.Length
    modifies pf, ws
    ensures pf.Valid() && (old(pf.NoLeak()) ==> pf.NoLeak())
    ensures ws[..] == WithPage(old(ws[..]), hand, USTACKTOP - PAGE_SIZE) && last == After(ws.Length, hand, 1) && content == Zeros()
    ensures pf.View() == WithStack(old(pf.View()), pf.zeroPage, id, old(pf.freeList) != [])
    ensures |old(ws[..])| == ws.Length && ws[..] == old(ws[..])[hand := Slot(0xEEBF_D000, false, 0x8000_0000)]
    ensures STACK_PAGE * PAGE_SIZE == 0xEEBF_D000
    ensures Agrees(pf.View(), id, STACK_PAGE, content)
       <==> (old(pf.freeList) != [] || (id, STACK_PAGE) in old(pf.View())) && pf.zeroPage == Zeros()
  {
    hide Sound, Complete, Content, Mapping;
    content := Zeros();
    ws[hand] := Slot(RoundDown(USTACKTOP - PAGE_SIZE, PAGE_SIZE), false, 0x8000_0000);
    last := (hand + 1) % ws.Length;
    if hand + 1 < ws.Length { SmallRemainder(hand + 1, ws.Length); }
    InView(pf, id, STACK_PAGE);
    var _ := pf.AddEmptyEnvPage(id, USTACKTOP - PAGE_SIZE, true);
  }

  /** The stack page changes nothing for the pages of segments that leave it alone. */
  lemma StackKeepsAgreement(store: Store, zero: Page, id: nat, segs: seq<Segment>, size: nat, tpp: bool, contents: seq<Page>,
                            room: bool, stack: Page)
    requires forall seg :: seg in segs ==> Loadable(seg) && !InMemory(seg, STACK_PAGE)
    requires ProgramAgrees(store, zero, id, segs, size, tpp, contents)
    ensures ProgramAgrees(WithStack(store, zero, id, room), zero, id, segs, size, tpp, contents + [stack])
  {
    hide Survives, SlotOf, ProgramSlots, ResidentPages, Loadable, MemoryPages, FirstPage;
    forall i: nat, k: nat | i < |segs| && IsResident(segs, i, k, size, tpp)
      ensures FirstPage(segs[i]) + k != STACK_PAGE
    {
      assert InMemory(segs[i], FirstPage(segs[i]) + k);
    }
  }

  /**
   * The loading part of env_create: the segments, then the stack. Of segments that share no page, with each other or
   * with the stack, every resident page agrees with its page-file copy exactly if it came out right and survived, and
   * the stack page does if the page file took it and the zero page is zero.
   */
  method LoadProgram(pf: PageFile, id: nat, segs: seq<Segment>, ws: array<Slot>, tpp: bool)
    returns (panic: bool, last: nat, contents: seq<Page>)
    requires pf.Valid() && ws.Length > 0 && forall seg :: seg in segs ==> Loadable(seg)
    modifies pf, ws
    ensures pf.Valid() && (old(pf.NoLeak()) ==> pf.NoLeak())
    ensures panic <==> |old(pf.freeList)| < FramesNeeded(old(pf.View()), pf.zeroPage, id, segs)
    ensures !panic ==>
      pf.View() == WithStack(AllLoaded(old(pf.View()), pf.zeroPage, id, segs), pf.zeroPage, id,
                             |old(pf.freeList)| > FramesNeeded(old(pf.View()), pf.zeroPage, id, segs))
    ensures !panic ==>
      && contents == ProgramPages(segs, ws.Length - 1, tpp) + [Zeros()] && |contents| <= ws.Length
      && last == After(ws.Length, |contents|, 0)
      && ws[..|contents|] == ProgramSlots(segs, ws.Length - 1, tpp) + [Slot(USTACKTOP - PAGE_SIZE, false, 0x8000_0000)]
      && ws[|contents|..] == old(ws[|contents|..])
    ensures !panic && Disjoint(segs) && (forall seg :: seg in segs ==> !InMemory(seg, STACK_PAGE)) ==>
      ProgramAgrees(pf.View(), pf.zeroPage, id, segs, ws.Length - 1, tpp, contents)
    ensures !panic ==>
      (Agrees(pf.View(), id, STACK_PAGE, contents[|contents| - 1])
       <==> pf.zeroPage == Zeros()
            && (|old(pf.freeList)| > FramesNeeded(old(pf.View()), pf.zeroPage, id, segs)
                || (id, STACK_PAGE) in AllLoaded(old(pf.View()), pf.zeroPage, id, segs)))
  {
    hide Sound, Complete, Mapping, AllLoaded, ProgramSlots, ProgramPages, FramesNeeded, Disjoint, ProgramAgrees, MemoryPages, WithStack,
      Agrees;
    panic, last, contents := LoadSegments(pf, id, segs, ws, tpp);
    if panic {
      return;
    }
    SameLength(segs, ws.Length - 1, tpp);
    ghost var store, room, was := pf.View(), pf.freeList != [], ws[..];
    var content;
    ghost var hand := last;
    last, content := LoadStack(pf, id, ws, last);
    SlotAppended(was, ws[..], hand, Slot(USTACKTOP - PAGE_SIZE, false, 0x8000_0000));
    SuffixKept(old(ws[..]), was, ws[..], hand, hand + 1);
    if Disjoint(segs) && forall seg :: seg in segs ==> !InMemory(seg, STACK_PAGE) {
      StackKeepsAgreement(store, pf.zeroPage, id, segs, ws.Length - 1, tpp, contents, room, content);
    }
    contents := contents + [content];
    assert contents[|contents| - 1] == content;
  }

  lemma SlotAppended(was: seq<Slot>, slots: seq<Slot>, hand: nat, slot: Slot)
    requires hand < |was| && slots == was[hand := slot]
    ensures slots[..hand + 1] == was[..hand] + [slot] && slots[hand + 1..] == was[hand + 1..]
  {
  }

  lemma NoSegments(store: Store, zero: Page, id: nat, segs: seq<Segment>, size: nat, tpp: bool)
    ensures AllLoaded(store, zero, id, segs[..0]) == store && FramesNeeded(store, zero, id, segs[..0]) == 0
    ensures ProgramSlots(segs[..0], size, tpp) == [] && ProgramPages(segs[..0], size, tpp) == []
  {
  }

  lemma OneMoreSegment(store: Store, zero: Page, id: nat, segs: seq<Segment>, i: nat, size: nat, tpp: bool)
    requires i < |segs| && forall seg :: seg in segs ==> Loadable(seg)
    ensures AllLoaded(store, zero, id, segs[..i + 1])
         == WithPages(AllLoaded(store, zero, id, segs[..i]), id, FirstPage(segs[i]), Written(segs[i], zero))
    ensures FramesNeeded(store, zero, id, segs[..i + 1])
         == FramesNeeded(store, zero, id, segs[..i])
          + NewPages(AllLoaded(store, zero, id, segs[..i]), id, FirstPage(segs[i]), WrittenPages(segs[i]))
    ensures Loadable(segs[i]) && forall seg :: seg in segs[..i] || seg in segs[..i + 1] ==> Loadable(seg)
    ensures var slots := ProgramSlots(segs[..i], size, tpp);
      && ProgramSlots(segs[..i + 1], size, tpp) == slots + SegSlots(segs[i], ResidentPages(segs[i], size - |slots|, tpp))
      && ProgramPages(segs[..i + 1], size, tpp)
      == ProgramPages(segs[..i], size, tpp) + SegPages(segs[i], ResidentPages(segs[i], size - |slots|, tpp))
  {
    hide WithPages, FirstPage, Written, WrittenPages, NewPages, SegSlots, SegPages, ResidentPages, Loadable, ProgramSlots, ProgramPages;
    assert segs[..i + 1][..i] == segs[..i];
    ProgramUnfolds(segs[..i + 1], size, tpp);
  }

  /** The page is one of those the segment takes in memory. */
  predicate InMemory(seg: Segment, p: nat) {
    FirstPage(seg) <= p < FirstPage(seg) + MemoryPages(seg)
  }

  /** No page belongs to two segments. */
  ghost predicate Disjoint(segs: seq<Segment>) {
    forall i, j, p: nat :: 0 <= i < j < |segs| && InMemory(segs[i], p) ==> !InMemory(segs[j], p)
  }

  /** The loader writes a page of zeros to p, just past the segment. */
  predicate Overruns(seg: Segment, p: nat) {
    |seg.file| == seg.sizeInMemory && |seg.file| % PAGE_SIZE == 0 && p == FirstPage(seg) + MemoryPages(seg)
  }

  /** A segment loaded after segment i overruns into page p. */
  predicate Overwritten(segs: seq<Segment>, i: nat, p: nat) {
    exists j :: i < j < |segs| && Overruns(segs[j], p)
  }

  /** Page k of segment i is what it should be in the page file, as can be told from the segments and the zero page. */
  predicate Survives(segs: seq<Segment>, zero: Page, i: nat, k: nat)
    requires i < |segs|
  {
    if Overwritten(segs, i, FirstPage(segs[i]) + k) then SegPage(segs[i], k) == Zeros()
    else k < FilePages(segs[i]) || zero == Zeros()
  }

  /** What loading a segment does to a page that is not its own. */
  lemma OtherPage(store: Store, seg: Segment, zero: Page, id: nat, p: nat)
    requires Loadable(seg) && !InMemory(seg, p)
    ensures var loaded := WithPages(store, id, FirstPage(seg), Written(seg, zero));
      if Overruns(seg, p) then (id, p) in loaded && loaded[(id, p)] == Zeros()
      else ((id, p) in loaded <==> (id, p) in store) && ((id, p) in store ==> loaded[(id, p)] == store[(id, p)])
  {
    hide WithPages, SegPage, Image;
    WritesPastTheEnd(seg);
    InWithPages(store, id, FirstPage(seg), Written(seg, zero), (id, p));
    if Overruns(seg, p) { PastFile(seg, MemoryPages(seg)); }
  }

  /**
   * Exactly which pages of a program come out right, whatever the order of its segments: a page that a later segment
   * overruns into must be zero, and of the others the ones past their file need a zero page that is zero.
   */
  lemma {:induction false} LoadsExactly(store: Store, zero: Page, id: nat, segs: seq<Segment>, i: nat, k: nat)
    requires (forall seg :: seg in segs ==> Loadable(seg)) && Disjoint(segs)
    requires i < |segs| && k < MemoryPages(segs[i])
    ensures var loaded, page := AllLoaded(store, zero, id, segs), (id, FirstPage(segs[i]) + k);
      page in loaded && (loaded[page] == SegPage(segs[i], k) <==> Survives(segs, zero, i, k))
      && (Overwritten(segs, i, page.1) ==> loaded[page] == Zeros())
  {
    hide *;
    var init, last, p := segs[..|segs| - 1], segs[|segs| - 1], FirstPage(segs[i]) + k;
    LastLoaded(store, zero, id, segs, i, k);
    if i < |segs| - 1 {
      LoadsExactly(store, zero, id, init, i, k);
      OtherPage(AllLoaded(store, zero, id, init), last, zero, id, p);
      SurvivesLast(segs, zero, i, k);
    } else {
      InLoadedPages(AllLoaded(store, zero, id, init), last, zero, id, k);
      WrittenPage(last, zero, k);
      SurvivesOwn(segs, zero, i, k);
    }
  }

  lemma SurvivesLast(segs: seq<Segment>, zero: Page, i: nat, k: nat)
    requires i < |segs| - 1
    ensures var init, last, p := segs[..|segs| - 1], segs[|segs| - 1], FirstPage(segs[i]) + k;
      && init[i] == segs[i]
      && (Overwritten(segs, i, p) <==> Overwritten(init, i, p) || Overruns(last, p))
      && (Survives(segs, zero, i, k) <==> if Overruns(last, p) then SegPage(segs[i], k) == Zeros() else Survives(init, zero, i, k))
  {
    hide SegPage, Overruns, FilePages;
    var init, last, p := segs[..|segs| - 1], segs[|segs| - 1], FirstPage(segs[i]) + k;
    assert Overruns(segs[|segs| - 1], p) ==> Overwritten(segs, i, p);
    if Overwritten(init, i, p) {
      var j :| i < j < |init| && Overruns(init[j], p);
      assert Overruns(segs[j], p);
    }
    if Overwritten(segs, i, p) && !Overruns(last, p) {
      var j :| i < j < |segs| && Overruns(segs[j], p);
      assert Overruns(init[j], p);
    }
  }

  lemma SurvivesOwn(segs: seq<Segment>, zero: Page, i: nat, k: nat)
    requires i == |segs| - 1
    ensures !Overwritten(segs, i, FirstPage(segs[i]) + k)
    ensures Survives(segs, zero, i, k) <==> k < FilePages(segs[i]) || zero == Zeros()
  {
    hide SegPage, FilePages;
  }

  lemma LastLoaded(store: Store, zero: Page, id: nat, segs: seq<Segment>, i: nat, k: nat)
    requires (forall seg :: seg in segs ==> Loadable(seg)) && Disjoint(segs)
    requires i < |segs| && k < MemoryPages(segs[i])
    ensures var init, last := segs[..|segs| - 1], segs[|segs| - 1];
      && AllLoaded(store, zero, id, segs)
      == WithPages(AllLoaded(store, zero, id, init), id, FirstPage(last), Written(last, zero))
      && Disjoint(init) && Loadable(last) && (forall seg :: seg in init ==> Loadable(seg))
      && (i < |segs| - 1 ==> !InMemory(last, FirstPage(segs[i]) + k) && init[i] == segs[i])
  {
    hide WithPages, WrittenPages, MemoryPages, FirstPage, Written, Loadable;
    assert InMemory(segs[i], FirstPage(segs[i]) + k);
  }

  lemma ResidentAgrees(store: Store, zero: Page, id: nat, segs: seq<Segment>, i: nat, k: nat, size: nat, tpp: bool)
    requires (forall seg :: seg in segs ==> Loadable(seg)) && Disjoint(segs)
    requires i < |segs| && IsResident(segs, i, k, size, tpp)
    ensures SlotOf(segs, i, k, size, tpp) < |ProgramSlots(segs, size, tpp)| == |ProgramPages(segs, size, tpp)|
    ensures Agrees(AllLoaded(store, zero, id, segs), id, FirstPage(segs[i]) + k, ProgramPages(segs, size, tpp)[SlotOf(segs, i, k, size, tpp)])
       <==> Survives(segs, zero, i, k)
  {
    hide SegPage, ProgramSlots, ProgramPages, AllLoaded, Disjoint, Survives, IsResident, SlotOf, Loadable, MemoryPages;
    ResidentPage(segs, i, k, size, tpp);
    LoadsExactly(store, zero, id, segs, i, k);
  }

  lemma ResidentsAgree(store: Store, zero: Page, id: nat, segs: seq<Segment>, size: nat, tpp: bool)
    requires (forall seg :: seg in segs ==> Loadable(seg)) && Disjoint(segs)
    ensures ProgramAgrees(AllLoaded(store, zero, id, segs), zero, id, segs, size, tpp, ProgramPages(segs, size, tpp))
  {
    hide ProgramSlots, ProgramPages, AllLoaded, Disjoint, Survives, IsResident, SlotOf, Loadable, Agrees;
    forall i: nat, k: nat | i < |segs| && IsResident(segs, i, k, size, tpp)
      ensures SlotOf(segs, i, k, size, tpp) < |ProgramPages(segs, size, tpp)|
      ensures Agrees(AllLoaded(store, zero, id, segs), id, FirstPage(segs[i]) + k, ProgramPages(segs, size, tpp)[SlotOf(segs, i, k, size, tpp)])
         <==> Survives(segs, zero, i, k)
    {
      ResidentAgrees(store, zero, id, segs, i, k, size, tpp);
    }
  }

  /** Each segment ends where the next one starts, or before. */
  ghost predicate Ascending(segs: seq<Segment>) {
    forall i, j :: 0 <= i < j < |segs| ==> FirstPage(segs[i]) + MemoryPages(segs[i]) <= FirstPage(segs[j])
  }

  /** Segments in order of address never overrun into a page that is already loaded. */
  lemma AscendingLoads(store: Store, zero: Page, id: nat, segs: seq<Segment>, i: nat, k: nat)
    requires (forall seg :: seg in segs ==> Loadable(seg)) && Ascending(segs)
    requires i < |segs| && k < MemoryPages(segs[i])
    ensures var loaded, page := AllLoaded(store, zero, id, segs), (id, FirstPage(segs[i]) + k);
      page in loaded && (loaded[page] == SegPage(segs[i], k) <==> k < FilePages(segs[i]) || zero == Zeros())
  {
    hide SegPage, AllLoaded, MemoryPages, FilePages, Loadable;
    LoadsExactly(store, zero, id, segs, i, k);
  }

  /**
   * In another order that fails: a segment that is one full page of file loses, to the zero page written past it,
   * the byte of a segment that starts there and was loaded before.
   */
  lemma BackwardLoses(store: Store, zero: Page, id: nat, file: Page)
    ensures var first, second := Segment(0x20_0000, file, PAGE_SIZE), Segment(0x20_1000, [7], 1);
      && Loadable(first) && Loadable(second) && Ascending([first, second])
      && (id, FirstPage(second)) in AllLoaded(store, zero, id, [second, first])
      && AllLoaded(store, zero, id, [second, first])[(id, FirstPage(second))] != SegPage(second, 0)
  {
    var first, second := Segment(0x20_0000, file, PAGE_SIZE), Segment(0x20_1000, [7], 1);
    assert [second, first][..1] == [second];
    var pages := Written(first, zero);
    InWithPages(AllLoaded(store, zero, id, [second]), id, FirstPage(first), pages, (id, FirstPage(second)));
    assert pages[1] == SegPage(first, 1);
    assert SegPage(first, 1)[0] == 0 && SegPage(second, 0)[0] == 7;
  }
}

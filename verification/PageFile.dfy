/** The page file of kern/file_manager.c: a disk-frame allocator and one two-level disk table per environment. */
module PageFile {
  import opened Layout
  import opened Lists
  import opened PageTables
  import FramePool
  import M = Memory

  /** PAGE_FILE_SIZE / PAGE_SIZE */
  const PAGES_PER_FILE := 133120
  const E_NO_PAGE_FILE_SPACE := -8
  const E_PAGE_NOT_EXIST_IN_PF := -9
  const KERNEL_BASE := 0xF000_0000

  /** The contents of one page. */
  type Page = s: seq<byte> | |s| == PAGE_SIZE witness seq(PAGE_SIZE, _ => 0)
  function Zeros(): Page { seq(PAGE_SIZE, _ => 0) }

  /** What initialize_paging makes of the zero page: its loop clears 1024 bytes, the others stay as they were at boot. */
  function ZeroPage(atBoot: Page): (page: Page)
    ensures page[..1024] == Zeros()[..1024] && page[1024..] == atBoot[1024..]
  {
    Zeros()[..1024] + atBoot[1024..]
  }

  /** So the zero page is zero exactly if the rest of its frame was. */
  lemma ZeroPageIsZero(atBoot: Page)
    ensures ZeroPage(atBoot) == Zeros() <==> forall i :: 1024 <= i < PAGE_SIZE ==> atBoot[i] == 0
  {
    var page := ZeroPage(atBoot);
    assert forall i :: 1024 <= i < PAGE_SIZE ==> page[i] == page[1024..][i - 1024] && atBoot[1024..][i - 1024] == atBoot[i];
    assert forall i :: 0 <= i < 1024 ==> page[i] == page[..1024][i];
  }

  /** Of each environment that has a disk directory, the disk tables by directory index. */
  type DiskTables = map<nat, map<nat, seq<nat>>>

  /** What the page file is an implementation of: a map from environments and pages to contents. */
  type Store = imap<(nat, nat), Page>

  datatype Option<T> = None | Some(value: T)

  ghost predicate DiskShape(dirs: DiskTables) {
    forall e, i :: e in dirs && i in dirs[e] ==> i < ENTRIES && |dirs[e][i]| == ENTRIES
  }

  predicate HasDiskTable(dirs: DiskTables, e: nat, p: nat) {
    e in dirs && Pdx(p) in dirs[e] && Ptx(p) < |dirs[e][Pdx(p)]|
  }

  /** The disk frame of page p of environment e, 0 when the page is not in the page file. */
  function Dfn(dirs: DiskTables, e: nat, p: nat): nat {
    if HasDiskTable(dirs, e, p) then dirs[e][Pdx(p)][Ptx(p)] else 0
  }

  function SetDfn(dirs: DiskTables, e: nat, p: nat, d: nat): DiskTables
    requires HasDiskTable(dirs, e, p)
  {
    var table: seq<nat> := dirs[e][Pdx(p)][Ptx(p) := d];
    var dir: map<nat, seq<nat>> := dirs[e][Pdx(p) := table];
    dirs[e := dir]
  }

  lemma SetDfnAt(dirs: DiskTables, e: nat, p: nat, d: nat)
    requires HasDiskTable(dirs, e, p) && DiskShape(dirs)
    ensures DiskShape(SetDfn(dirs, e, p, d))
    ensures forall e': nat, p': nat :: Dfn(SetDfn(dirs, e, p, d), e', p') == if e' == e && p' == p then d else Dfn(dirs, e', p')
    ensures forall e': nat, p': nat :: HasDiskTable(SetDfn(dirs, e, p, d), e', p') == HasDiskTable(dirs, e', p')
  {
    forall e': nat, p': nat ensures Dfn(SetDfn(dirs, e, p, d), e', p') == if e' == e && p' == p then d else Dfn(dirs, e', p') {
      if e' == e && Pdx(p') == Pdx(p) && Ptx(p') == Ptx(p) {
        assert p' == Pdx(p') * ENTRIES + Ptx(p');
        assert p == Pdx(p) * ENTRIES + Ptx(p);
      }
    }
  }

  /** No disk frame is free and used, or used twice; frame 0 is neither. owner tells who uses a frame. */
  ghost predicate Sound(free: seq<nat>, dirs: DiskTables, owner: map<nat, (nat, nat)>) {
    && DiskShape(dirs) && NoDuplicates(free)
    && (forall d :: d in free ==> 0 < d < PAGES_PER_FILE)
    && (forall e: nat, p: nat :: Dfn(dirs, e, p) != 0 ==>
          Dfn(dirs, e, p) < PAGES_PER_FILE && Dfn(dirs, e, p) !in free
          && Dfn(dirs, e, p) in owner && owner[Dfn(dirs, e, p)] == (e, p))
  }

  /** Every disk frame but 0 is free or used: none has leaked. */
  ghost predicate Complete(free: seq<nat>, dirs: DiskTables, owner: map<nat, (nat, nat)>) {
    forall d :: 0 < d < PAGES_PER_FILE && d !in free ==> d in owner && Dfn(dirs, owner[d].0, owner[d].1) == d
  }

  lemma UseKeepsSound(free: seq<nat>, dirs: DiskTables, owner: map<nat, (nat, nat)>, e: nat, p: nat)
    requires Sound(free, dirs, owner) && |free| > 0 && HasDiskTable(dirs, e, p) && Dfn(dirs, e, p) == 0
    ensures Sound(free[1..], SetDfn(dirs, e, p, free[0]), owner[free[0] := (e, p)])
    ensures Complete(free, dirs, owner) ==> Complete(free[1..], SetDfn(dirs, e, p, free[0]), owner[free[0] := (e, p)])
  {
    SetDfnAt(dirs, e, p, free[0]);
    assert free[0] in free && free[0] !in free[1..];
    assert forall d :: d in free <==> d == free[0] || d in free[1..];
  }

  /** The list after free_disk_frame(d). */
  function Returned(free: seq<nat>, d: nat): seq<nat> {
    if d == 0 then free else [d] + free
  }

  lemma ReturnKeepsSound(free: seq<nat>, dirs: DiskTables, owner: map<nat, (nat, nat)>, e: nat, p: nat)
    requires Sound(free, dirs, owner) && HasDiskTable(dirs, e, p)
    ensures Sound(Returned(free, Dfn(dirs, e, p)), SetDfn(dirs, e, p, 0), owner)
    ensures Complete(free, dirs, owner) ==> Complete(Returned(free, Dfn(dirs, e, p)), SetDfn(dirs, e, p, 0), owner)
  {
    SetDfnAt(dirs, e, p, 0);
    var d := Dfn(dirs, e, p);
    var free' := Returned(free, d);
    assert forall g :: g in free' <==> g in free || (d != 0 && g == d);
  }

  ghost function Content(dirs: DiskTables, disk: seq<Page>, e: nat, p: nat): Option<Page> {
    if 0 < Dfn(dirs, e, p) < |disk| then Some(disk[Dfn(dirs, e, p)]) else None
  }

  ghost function Mapping(dirs: DiskTables, disk: seq<Page>): Store {
    imap k: (nat, nat) | Content(dirs, disk, k.0, k.1) != None :: Content(dirs, disk, k.0, k.1).value
  }

  lemma MappingSet(dirs: DiskTables, disk: seq<Page>, dirs': DiskTables, disk': seq<Page>, e: nat, p: nat, src: Page)
    requires Content(dirs', disk', e, p) == Some(src)
    requires forall e': nat, p': nat :: e' != e || p' != p ==> Content(dirs', disk', e', p') == Content(dirs, disk, e', p')
    ensures Mapping(dirs', disk') == Mapping(dirs, disk)[(e, p) := src]
  {
    hide Content;
  }

  lemma MappingCleared(dirs: DiskTables, disk: seq<Page>, dirs': DiskTables, e: nat, p: nat)
    requires Content(dirs', disk, e, p) == None
    requires forall e': nat, p': nat :: e' != e || p' != p ==> Content(dirs', disk, e', p') == Content(dirs, disk, e', p')
    ensures Mapping(dirs', disk) == Mapping(dirs, disk) - {(e, p)}
  {
    hide Content;
  }

  lemma MappingSame(dirs: DiskTables, disk: seq<Page>, dirs': DiskTables)
    requires forall e': nat, p': nat :: Content(dirs', disk, e', p') == Content(dirs, disk, e', p')
    ensures Mapping(dirs', disk) == Mapping(dirs, disk)
  {
    hide Content;
  }

  class PageFile {
    /** What ptr_zero_page points to. */
    const zeroPage: Page
    var freeList: seq<nat>
    var disk: seq<Page>
    var dirs: DiskTables
    ghost var owner: map<nat, (nat, nat)>

    ghost predicate Valid()
      reads this
    {
      Sound(freeList, dirs, owner) && |disk| == PAGES_PER_FILE
    }

    ghost predicate NoLeak()
      reads this
    {
      Complete(freeList, dirs, owner)
    }

    /** The abstract page file: what a read of page p of environment e yields. */
    ghost function Lookup(e: nat, p: nat): Option<Page>
      reads this
    {
      Content(dirs, disk, e, p)
    }

    /** The page file as a map from environments and pages to contents. */
    ghost function View(): Store
      reads this
    {
      Mapping(dirs, disk)
    }

    constructor Initialize(image: seq<Page>, atBoot: Page)
      requires |image| == PAGES_PER_FILE
      ensures zeroPage == ZeroPage(atBoot)
      ensures Valid() && NoLeak() && dirs == map[] && disk == image && freeList == M.Descending(1, PAGES_PER_FILE)
    {
      zeroPage := ZeroPage(atBoot);
      freeList, disk, dirs, owner := [], image, map[], map[];
      new;
      for i := 1 to PAGES_PER_FILE
        invariant freeList == M.Descending(1, i) && dirs == map[] && disk == image
      {
        freeList := [i] + freeList;
      }
      forall d | 0 < d < PAGES_PER_FILE ensures d in freeList {
        assert freeList[PAGES_PER_FILE - 1 - d] == d;
      }
    }

    method AllocateDiskFrame() returns (code: int, dfn: nat)
      requires Valid()
      modifies this`freeList
      ensures old(freeList) == [] ==> code == E_NO_PAGE_FILE_SPACE && freeList == []
      ensures old(freeList) != [] ==> code == 0 && dfn == old(freeList)[0] && freeList == old(freeList)[1..]
      ensures code == 0 ==> 0 < dfn < PAGES_PER_FILE && dfn !in freeList && forall e: nat, p: nat :: Dfn(dirs, e, p) != dfn
    {
      hide Sound, Complete;
      if freeList == [] {
        return E_NO_PAGE_FILE_SPACE, 0;
      }
      FirstFree(freeList, dirs, owner);
      dfn := freeList[0];
      freeList := freeList[1..];
      code := 0;
    }

    method FreeDiskFrame(dfn: nat)
      modifies this`freeList
      ensures freeList == Returned(old(freeList), dfn)
      ensures if dfn == 0 then freeList == old(freeList) else freeList == [dfn] + old(freeList)
    {
      if dfn == 0 {
        return;
      }
      freeList := [dfn] + freeList;
    }

    /** get_disk_page_directory, which creates a missing directory. */
    method GetDiskPageDirectory(e: nat)
      requires Valid()
      modifies this`dirs
      ensures Valid() && NoLeak() == old(NoLeak())
      ensures e in dirs && dirs == old(if e in dirs then dirs else dirs[e := map[]])
      ensures forall e': nat, p': nat :: Dfn(dirs, e', p') == old(Dfn(dirs, e', p'))
    {
      hide Sound, Complete;
      DiskShapeOf(freeList, dirs, owner);
      if e !in dirs {
        dirs := dirs[e := map[]];
        SameDfnKeeps(freeList, old(dirs), dirs, owner);
      }
    }

    /**
     * get_disk_page_table for a table that is there; found is false for the NULL table. The table is looked up with
     * kheap_virtual_address, and reached says whether that finds it: it looks only below the cursor of the kernel heap.
     */
    method FindDiskPageTable(e: nat, va: uint32, reached: bool) returns (found: bool)
      requires Valid() && e in dirs
      ensures found == (reached && HasDiskTable(dirs, e, va / PAGE_SIZE))
    {
      hide Complete;
      DiskShapeOf(freeList, dirs, owner);
      found := reached && Pdx(va / PAGE_SIZE) in dirs[e];
    }

    /** get_disk_page_table that creates a missing table; its callers write through what it finds, which must not be NULL. */
    method GetDiskPageTable(e: nat, va: uint32)
      requires Valid() && e in dirs
      modifies this`dirs
      ensures Valid() && NoLeak() == old(NoLeak())
      ensures dirs.Keys == old(dirs.Keys) && HasDiskTable(dirs, e, va / PAGE_SIZE)
      ensures forall e': nat, p': nat :: Dfn(dirs, e', p') == old(Dfn(dirs, e', p'))
    {
      hide Sound, Complete;
      DiskShapeOf(freeList, dirs, owner);
      if Pdx(va / PAGE_SIZE) !in dirs[e] {
        NewDiskTable(dirs, e, va / PAGE_SIZE);
        dirs := WithDiskTable(dirs, e, va / PAGE_SIZE);
        SameDfnKeeps(freeList, old(dirs), dirs, owner);
      }
    }

    /** The disk frame of a page, allocated when it has none; found is false when the page file is full. */
    method EnsureDiskFrame(e: nat, va: uint32) returns (code: int, dfn: nat)
      requires Valid()
      modifies this`dirs, this`freeList, this`owner
      ensures Valid() && (old(NoLeak()) ==> NoLeak())
      ensures var p := va / PAGE_SIZE; var d := old(Dfn(dirs, e, p));
        && (code == if d == 0 && old(freeList) == [] then E_NO_PAGE_FILE_SPACE else 0)
        && freeList == (if d == 0 && code == 0 then old(freeList)[1..] else old(freeList))
        && (code == 0 ==> dfn == (if d == 0 then old(freeList)[0] else d) && 0 < dfn < PAGES_PER_FILE)
        && Dfn(dirs, e, p) == (if code == 0 then dfn else 0)
        && forall e': nat, p': nat :: e' != e || p' != p ==> Dfn(dirs, e', p') == old(Dfn(dirs, e', p'))
    {
      hide Sound, Complete;
      ghost var p := va / PAGE_SIZE;
      GetDiskPageDirectory(e);
      GetDiskPageTable(e, va);
      dfn := dirs[e][Pdx(va / PAGE_SIZE)][Ptx(va / PAGE_SIZE)];
      code := 0;
      UsedFrame(e, p);
      if dfn == 0 {
        code, dfn := AllocateDiskFrame();
        if code == E_NO_PAGE_FILE_SPACE {
          return;
        }
        UseKeepsSound(old(freeList), dirs, owner, e, p);
        DiskShapeOf(old(freeList), dirs, owner);
        SetDfnAt(dirs, e, p, dfn);
        dirs := SetDfn(dirs, e, va / PAGE_SIZE, dfn);
        owner := owner[dfn := (e, p)];
      }
    }

    lemma UsedFrame(e: nat, p: nat)
      requires Valid()
      ensures Dfn(dirs, e, p) < PAGES_PER_FILE
      ensures forall e': nat, p': nat :: Dfn(dirs, e, p) != 0 && (e' != e || p' != p) ==> Dfn(dirs, e', p') != Dfn(dirs, e, p)
    {
    }

    method AddEnvPage(e: nat, va: uint32, src: Page) returns (code: int)
      requires Valid() && va < KERNEL_BASE
      modifies this`dirs, this`freeList, this`owner, this`disk
      ensures Valid() && (old(NoLeak()) ==> NoLeak())
      ensures code == if old(Lookup(e, va / PAGE_SIZE)) == None && old(freeList) == [] then E_NO_PAGE_FILE_SPACE else 0
      ensures freeList == if code == 0 && old(Lookup(e, va / PAGE_SIZE)) == None then old(freeList)[1..] else old(freeList)
      ensures Lookup(e, va / PAGE_SIZE) == if code == 0 then Some(src) else None
      ensures forall e': nat, p': nat :: e' != e || p' != va / PAGE_SIZE ==> Lookup(e', p') == old(Lookup(e', p'))
      ensures View() == if code == 0 then old(View())[(e, va / PAGE_SIZE) := src] else old(View())
    {
      hide Sound, Complete, Mapping;
      var dfn;
      code, dfn := EnsureDiskFrame(e, va);
      UsedFrame(e, va / PAGE_SIZE);
      if code == E_NO_PAGE_FILE_SPACE {
        MappingSame(old(dirs), disk, dirs);
        return;
      }
      disk := disk[dfn := src];
      MappingSet(old(dirs), old(disk), dirs, disk, e, va / PAGE_SIZE, src);
    }

    /** pf_add_empty_env_page adds the zero page; without zeroing, the page starts with whatever its disk frame holds. */
    method AddEmptyEnvPage(e: nat, va: uint32, initializeByZero: bool) returns (code: int)
      requires Valid() && va < KERNEL_BASE
      modifies this`dirs, this`freeList, this`owner, this`disk
      ensures Valid() && (old(NoLeak()) ==> NoLeak())
      ensures code == if old(Lookup(e, va / PAGE_SIZE)) == None && old(freeList) == [] then E_NO_PAGE_FILE_SPACE else 0
      ensures freeList == if code == 0 && old(Lookup(e, va / PAGE_SIZE)) == None then old(freeList)[1..] else old(freeList)
      ensures code == 0 && initializeByZero ==> Lookup(e, va / PAGE_SIZE) == Some(zeroPage)
      ensures code == 0 && !initializeByZero && old(Lookup(e, va / PAGE_SIZE)) != None ==>
        Lookup(e, va / PAGE_SIZE) == old(Lookup(e, va / PAGE_SIZE))
      ensures code == 0 && !initializeByZero && old(Lookup(e, va / PAGE_SIZE)) == None ==>
        old(freeList)[0] < PAGES_PER_FILE && Lookup(e, va / PAGE_SIZE) == Some(old(disk)[old(freeList)[0]])
      ensures code != 0 ==> Lookup(e, va / PAGE_SIZE) == None
      ensures initializeByZero || code != 0 ==>
        View() == if code == 0 then old(View())[(e, va / PAGE_SIZE) := zeroPage] else old(View())
      ensures forall e': nat, p': nat :: e' != e || p' != va / PAGE_SIZE ==> Lookup(e', p') == old(Lookup(e', p'))
    {
      hide Complete, Mapping;
      if initializeByZero {
        code := AddEnvPage(e, va, zeroPage);
      } else {
        var dfn;
        code, dfn := EnsureDiskFrame(e, va);
        if code != 0 { MappingSame(old(dirs), disk, dirs); }
      }
    }

    /** pf_update_env_page writes the frame the page lives in; the frame is mapped for a moment to be read. */
    method UpdateEnvPage(e: nat, va: uint32, mem: M.Memory, d: nat, f: nat, content: Page, reached: bool)
      returns (code: int)
      requires Valid() && va < KERNEL_BASE
      requires mem.Valid() && IsPage(mem.dirs, d, USER_LIMIT_PAGE) && HasTable(mem.dirs, d, USER_LIMIT_PAGE)
      requires mem.At(d, USER_LIMIT_PAGE) == EMPTY && mem.Mappable(f) && 0 < mem.references[f] < 0xFFFE
      modifies this`dirs, this`disk, mem
      ensures Valid() && NoLeak() == old(NoLeak())
      ensures code == if !reached || old(Lookup(e, va / PAGE_SIZE)) == None then E_PAGE_NOT_EXIST_IN_PF else 0
      ensures Lookup(e, va / PAGE_SIZE) == if code == 0 then Some(content) else old(Lookup(e, va / PAGE_SIZE))
      ensures forall e': nat, p': nat :: e' != e || p' != va / PAGE_SIZE ==> Lookup(e', p') == old(Lookup(e', p'))
      ensures View() == if code == 0 then old(View())[(e, va / PAGE_SIZE) := content] else old(View())
      ensures mem.Valid() && mem.Frames() == old(mem.Frames()) && mem.tables == old(mem.tables) && mem.dirs == old(mem.dirs)
    {
      hide Sound, Complete, Mapping, M.Structured, FramePool.Ok;
      GetDiskPageDirectory(e);
      var found := FindDiskPageTable(e, va, reached);
      MappingSame(old(dirs), disk, dirs);
      if !found {
        return E_PAGE_NOT_EXIST_IN_PF;
      }
      var dfn := dirs[e][Pdx(va / PAGE_SIZE)][Ptx(va / PAGE_SIZE)];
      if dfn == 0 {
        return E_PAGE_NOT_EXIST_IN_PF;
      }
      UsedFrame(e, va / PAGE_SIZE);
      disk := disk[dfn := content];
      MappingSet(old(dirs), old(disk), dirs, disk, e, va / PAGE_SIZE, content);
      mem.MapForUpdate(d, f);
      code := 0;
    }

    /** pf_read_env_page, up to the write of the page table: code and contents. */
    method ReadEnvPage(e: nat, va: uint32, reached: bool) returns (code: int, content: Page)
      requires Valid()
      ensures code == if !reached || Lookup(e, va / PAGE_SIZE) == None then E_PAGE_NOT_EXIST_IN_PF else 0
      ensures code == 0 ==> Lookup(e, va / PAGE_SIZE) == Some(content)
    {
      content := Zeros();
      if e !in dirs {
        return E_PAGE_NOT_EXIST_IN_PF, content;
      }
      var found := FindDiskPageTable(e, va, reached);
      if !found {
        return E_PAGE_NOT_EXIST_IN_PF, content;
      }
      var dfn := dirs[e][Pdx(va / PAGE_SIZE)][Ptx(va / PAGE_SIZE)];
      if dfn == 0 {
        return E_PAGE_NOT_EXIST_IN_PF, content;
      }
      UsedFrame(e, va / PAGE_SIZE);
      code, content := 0, disk[dfn];
    }

    /** pf_remove_env_page: a page whose disk table is out of reach stays. */
    method RemoveEnvPage(e: nat, va: uint32, reached: bool)
      requires Valid()
      modifies this`dirs, this`freeList
      ensures Valid() && (old(NoLeak()) ==> NoLeak())
      ensures !reached ==> dirs == old(dirs) && freeList == old(freeList)
      ensures reached ==> freeList == Returned(old(freeList), old(Dfn(dirs, e, va / PAGE_SIZE)))
      ensures reached ==> forall e': nat, p': nat :: Dfn(dirs, e', p') == if e' == e && p' == va / PAGE_SIZE then 0 else old(Dfn(dirs, e', p'))
      ensures forall e', i :: (e' in dirs && i in dirs[e']) <==> (e' in old(dirs) && i in old(dirs)[e'])
      ensures View() == if reached then old(View()) - {(e, va / PAGE_SIZE)} else old(View())
    {
      hide Sound, Complete, Mapping;
      ghost var p := va / PAGE_SIZE;
      if e !in dirs {
        if reached { MappingCleared(dirs, disk, dirs, e, p); }
        return;
      }
      var found := FindDiskPageTable(e, va, reached);
      DiskShapeOf(freeList, dirs, owner);
      if !found {
        if reached { MappingCleared(dirs, disk, dirs, e, p); }
        return;
      }
      var dfn := dirs[e][Pdx(va / PAGE_SIZE)][Ptx(va / PAGE_SIZE)];
      ReturnKeepsSound(freeList, dirs, owner, e, p);
      SetDfnAt(dirs, e, p, 0);
      dirs := SetDfn(dirs, e, va / PAGE_SIZE, 0);
      MappingCleared(old(dirs), disk, dirs, e, p);
      FreeDiskFrame(dfn);
    }

    /** pf_calculate_allocated_pages: it looks below USER_TOP only. */
    method CalculateAllocatedPages(e: nat) returns (counter: nat)
      requires Valid() && e in dirs
      ensures counter == |UsedPages(dirs, e, USER_TOP_PAGE)|
    {
      hide Sound;
      DiskShapeOf(freeList, dirs, owner);
      counter := 0;
      var i := 0;
      NoUsedPages(dirs, e);
      while i < USER_TOP_PDX
        invariant 0 <= i <= USER_TOP_PDX && counter == |UsedPages(dirs, e, i * ENTRIES)|
      {
        if i !in dirs[e] {
          NoTableNoPages(dirs, e, i);
        } else {
          var j := 0;
          while j < ENTRIES
            invariant 0 <= j <= ENTRIES && counter == |UsedPages(dirs, e, i * ENTRIES + j)|
          {
            UsedPagesStep(dirs, e, i * ENTRIES + j);
            if dirs[e][i][j] != 0 {
              counter := counter + 1;
            }
            j := j + 1;
          }
        }
        i := i + 1;
      }
    }

    /** pf_free_env: every page below USER_TOP is returned; pages above it lose their frames. */
    method FreeEnv(e: nat)
      requires Valid() && e in dirs
      modifies this`dirs, this`freeList
      ensures Valid()
      ensures old(NoLeak()) ==> (NoLeak() <==> forall p :: p >= USER_TOP_PAGE ==> old(Dfn(dirs, e, p)) == 0)
      ensures e !in dirs && forall e': nat, p': nat :: e' != e ==> Dfn(dirs, e', p') == old(Dfn(dirs, e', p'))
      ensures forall d :: d in freeList <==> d in old(freeList) || FreedBelow(old(dirs), owner, e, USER_TOP_PAGE, d)
    {
      hide Sound, Complete;
      var i := 0;
      while i < USER_TOP_PDX
        invariant 0 <= i <= USER_TOP_PDX && Valid() && e in dirs && (old(NoLeak()) ==> NoLeak())
        invariant Cleared(old(dirs), dirs, e, i * ENTRIES)
        invariant forall d :: d in freeList <==> d in old(freeList) || FreedBelow(old(dirs), owner, e, i * ENTRIES, d)
      {
        if i !in dirs[e] {
          SkipTable(old(dirs), dirs, owner, e, i);
        } else {
          FreeTable(e, i, old(dirs), old(freeList));
          DropTable(e, i);
        }
        i := i + 1;
      }
      ghost var before := dirs;
      dirs := dirs - {e};
      DropDirectory(freeList, before, owner, e);
      if Complete(freeList, before, owner) {
        LeakAbove(freeList, before, owner, e);
      }
    }

    /** The loop of pf_free_env over one disk table. */
    method FreeTable(e: nat, i: nat, ghost dirs0: DiskTables, ghost free0: seq<nat>)
      requires Valid() && e in dirs && i in dirs[e] && Sound(free0, dirs0, owner) && Cleared(dirs0, dirs, e, i * ENTRIES)
      requires forall d :: d in freeList <==> d in free0 || FreedBelow(dirs0, owner, e, i * ENTRIES, d)
      modifies this`dirs, this`freeList
      ensures Valid() && (old(NoLeak()) ==> NoLeak()) && e in dirs && i in dirs[e]
      ensures Cleared(dirs0, dirs, e, (i + 1) * ENTRIES)
      ensures forall d :: d in freeList <==> d in free0 || FreedBelow(dirs0, owner, e, (i + 1) * ENTRIES, d)
    {
      hide Sound, Complete;
      var j := 0;
      while j < ENTRIES
        invariant 0 <= j <= ENTRIES && Valid() && (old(NoLeak()) ==> NoLeak()) && e in dirs && i in dirs[e]
        invariant Cleared(dirs0, dirs, e, i * ENTRIES + j)
        invariant forall d :: d in freeList <==> d in free0 || FreedBelow(dirs0, owner, e, i * ENTRIES + j, d)
      {
        FreeEntry(e, i, j, dirs0, free0);
        j := j + 1;
      }
    }

    /** Its body: the disk frame of one entry. */
    method FreeEntry(e: nat, i: nat, j: nat, ghost dirs0: DiskTables, ghost free0: seq<nat>)
      requires Valid() && e in dirs && i in dirs[e] && j < ENTRIES && Sound(free0, dirs0, owner)
      requires Cleared(dirs0, dirs, e, i * ENTRIES + j)
      requires forall d :: d in freeList <==> d in free0 || FreedBelow(dirs0, owner, e, i * ENTRIES + j, d)
      modifies this`dirs, this`freeList
      ensures Valid() && (old(NoLeak()) ==> NoLeak()) && e in dirs && i in dirs[e]
      ensures Cleared(dirs0, dirs, e, i * ENTRIES + j + 1)
      ensures forall d :: d in freeList <==> d in free0 || FreedBelow(dirs0, owner, e, i * ENTRIES + j + 1, d)
    {
      hide Sound, Complete;
      ghost var p := i * ENTRIES + j;
      DiskShapeOf(freeList, dirs, owner);
      ReturnKeepsSound(freeList, dirs, owner, e, p);
      SetDfnAt(dirs, e, p, 0);
      OneMoreFreed(free0, dirs0, owner, e, p);
      var dfn := dirs[e][i][j];
      dirs := SetDfn(dirs, e, i * ENTRIES + j, 0);
      FreeDiskFrame(dfn);
    }

    /** The disk table itself goes back to the kernel heap. */
    method DropTable(e: nat, i: nat)
      requires Valid() && e in dirs && i in dirs[e]
      requires forall p :: i * ENTRIES <= p < (i + 1) * ENTRIES ==> Dfn(dirs, e, p) == 0
      modifies this`dirs
      ensures Valid() && NoLeak() == old(NoLeak()) && e in dirs
      ensures forall e': nat, p': nat :: Dfn(dirs, e', p') == old(Dfn(dirs, e', p'))
    {
      hide Sound, Complete;
      DiskShapeOf(freeList, dirs, owner);
      ghost var before := dirs;
      dirs := dirs[e := dirs[e] - {i}];
      forall e': nat, p': nat ensures Dfn(dirs, e', p') == Dfn(before, e', p') {
        if e' == e && Pdx(p') == i {
          assert i * ENTRIES <= p' < (i + 1) * ENTRIES;
        }
      }
      SameDfnKeeps(freeList, before, dirs, owner);
    }
  }

  // ---- conservation ----

  /** Every page of every environment that is in the page file. */
  ghost function AllPages(dirs: DiskTables): set<(nat, nat)> {
    set e, p | e in dirs.Keys && 0 <= p < PAGES && Dfn(dirs, e, p) != 0 :: (e, p)
  }

  lemma {:induction false} SameSize(a: set<nat>, b: set<(nat, nat)>, f: map<nat, (nat, nat)>, g: map<(nat, nat), nat>)
    requires forall x :: x in a ==> x in f && f[x] in b && f[x] in g && g[f[x]] == x
    requires forall y :: y in b ==> y in g && g[y] in a && g[y] in f && f[g[y]] == y
    ensures |a| == |b|
  {
    if a == {} {
      if y :| y in b { assert g[y] in a; }
    } else {
      var x :| x in a;
      assert g[f[x]] == x;
      SameSize(a - {x}, b - {f[x]}, f, g);
    }
  }

  ghost function Elements(s: seq<nat>): set<nat> {
    set d | d in s
  }

  lemma {:induction false} DistinctSize(s: seq<nat>)
    requires NoDuplicates(s)
    ensures |Elements(s)| == |s|
  {
    if s != [] {
      DistinctSize(s[1..]);
      assert s[0] !in Elements(s[1..]);
      assert Elements(s) == Elements(s[1..]) + {s[0]};
    }
  }

  ghost function Below(n: nat): (s: set<nat>)
    ensures |s| == n && forall d: nat :: d in s <==> d < n
  {
    if n == 0 then {} else Below(n - 1) + {n - 1}
  }

  /** Free and allocated frames always add up to every frame but frame 0. */
  lemma Conservation(free: seq<nat>, dirs: DiskTables, owner: map<nat, (nat, nat)>)
    requires Sound(free, dirs, owner) && Complete(free, dirs, owner)
    ensures |free| + |AllPages(dirs)| == PAGES_PER_FILE - 1
  {
    hide Sound, Complete, AllPages, Below, NoDuplicates;
    var freeSet := Elements(free);
    var used := Below(PAGES_PER_FILE) - {0} - freeSet;
    FreeInRange(free, dirs, owner);
    InNumbered(PAGES_PER_FILE);
    UsedAreOwned(free, dirs, owner, used);
    DistinctSize(free);
    Complement(Below(PAGES_PER_FILE), 0, freeSet);
  }

  lemma InNumbered(n: nat)
    ensures |Below(n)| == n && forall d: nat :: d in Below(n) <==> d < n
  {
  }

  lemma Complement(s: set<nat>, x: nat, t: set<nat>)
    requires x in s && t <= s - {x}
    ensures |s - {x} - t| == |s| - 1 - |t|
  {
    assert s == (s - {x}) + {x};
    assert s - {x} == (s - {x} - t) + t;
  }

  lemma FreeInRange(free: seq<nat>, dirs: DiskTables, owner: map<nat, (nat, nat)>)
    requires Sound(free, dirs, owner)
    ensures NoDuplicates(free) && forall d :: d in free ==> 0 < d < PAGES_PER_FILE
  {
  }

  lemma UsedAreOwned(free: seq<nat>, dirs: DiskTables, owner: map<nat, (nat, nat)>, used: set<nat>)
    requires Sound(free, dirs, owner) && Complete(free, dirs, owner)
    requires forall d :: d in used <==> 0 < d < PAGES_PER_FILE && d !in free
    ensures |used| == |AllPages(dirs)|
  {
    var g := map y | y in AllPages(dirs) :: Dfn(dirs, y.0, y.1);
    forall d | d in used ensures d in owner && owner[d] in AllPages(dirs) && owner[d] in g && g[owner[d]] == d {
      UsedInRange(dirs, owner[d].0, owner[d].1);
    }
    SameSize(used, AllPages(dirs), owner, g);
  }

  lemma UsedInRange(dirs: DiskTables, e: nat, p: nat)
    requires DiskShape(dirs) && Dfn(dirs, e, p) != 0
    ensures (e, p) in AllPages(dirs)
  {
  }

  /** The pages of e below b that are in the page file. */
  ghost function UsedPages(dirs: DiskTables, e: nat, b: nat): set<nat> {
    set p: nat | 0 <= p < b && Dfn(dirs, e, p) != 0
  }

  lemma NoUsedPages(dirs: DiskTables, e: nat)
    ensures UsedPages(dirs, e, 0) == {}
  {
  }

  lemma UsedPagesStep(dirs: DiskTables, e: nat, p: nat)
    ensures |UsedPages(dirs, e, p + 1)| == |UsedPages(dirs, e, p)| + if Dfn(dirs, e, p) != 0 then 1 else 0
  {
    assert UsedPages(dirs, e, p + 1) == UsedPages(dirs, e, p) + if Dfn(dirs, e, p) != 0 then {p} else {};
  }

  lemma NoTableNoPages(dirs: DiskTables, e: nat, i: nat)
    requires e in dirs && i !in dirs[e]
    ensures UsedPages(dirs, e, (i + 1) * ENTRIES) == UsedPages(dirs, e, i * ENTRIES)
  {
    forall p: nat | i * ENTRIES <= p < (i + 1) * ENTRIES ensures Dfn(dirs, e, p) == 0 { }
  }

  /** dirs is dirs0 with the pages of e below b cleared. */
  ghost predicate Cleared(dirs0: DiskTables, dirs: DiskTables, e: nat, b: nat) {
    forall e': nat, p': nat :: Dfn(dirs, e', p') == if e' == e && p' < b then 0 else Dfn(dirs0, e', p')
  }

  /** d is the disk frame of a page of e below b. */
  ghost predicate FreedBelow(dirs0: DiskTables, owner: map<nat, (nat, nat)>, e: nat, b: nat, d: nat) {
    d != 0 && d in owner && owner[d].0 == e && owner[d].1 < b && Dfn(dirs0, e, owner[d].1) == d
  }

  lemma OneMoreFreed(free0: seq<nat>, dirs0: DiskTables, owner: map<nat, (nat, nat)>, e: nat, p: nat)
    requires Sound(free0, dirs0, owner)
    ensures forall d :: FreedBelow(dirs0, owner, e, p + 1, d) <==>
                        FreedBelow(dirs0, owner, e, p, d) || (d != 0 && d == Dfn(dirs0, e, p))
  {
    hide Dfn;
    forall d
      ensures FreedBelow(dirs0, owner, e, p + 1, d) <==>
              FreedBelow(dirs0, owner, e, p, d) || (d != 0 && d == Dfn(dirs0, e, p))
    {
      if d != 0 && d == Dfn(dirs0, e, p) { assert owner[d] == (e, p); }
    }
  }

  lemma SkipTable(dirs0: DiskTables, dirs: DiskTables, owner: map<nat, (nat, nat)>, e: nat, i: nat)
    requires Cleared(dirs0, dirs, e, i * ENTRIES) && e in dirs && i !in dirs[e]
    ensures Cleared(dirs0, dirs, e, (i + 1) * ENTRIES)
    ensures forall d :: FreedBelow(dirs0, owner, e, (i + 1) * ENTRIES, d) <==> FreedBelow(dirs0, owner, e, i * ENTRIES, d)
  {
    forall p: nat | i * ENTRIES <= p < (i + 1) * ENTRIES ensures Dfn(dirs, e, p) == 0 && Dfn(dirs0, e, p) == 0 { }
  }

  lemma DropDirectory(free: seq<nat>, dirs: DiskTables, owner: map<nat, (nat, nat)>, e: nat)
    requires Sound(free, dirs, owner)
    ensures Sound(free, dirs - {e}, owner)
    ensures forall e': nat, p': nat :: Dfn(dirs - {e}, e', p') == if e' == e then 0 else Dfn(dirs, e', p')
  {
    var dirs' := dirs - {e};
    forall e': nat, p': nat ensures Dfn(dirs', e', p') == if e' == e then 0 else Dfn(dirs, e', p') { }
  }

  /** Dropping a directory leaks exactly the frames it still names. */
  lemma LeakAbove(free: seq<nat>, dirs: DiskTables, owner: map<nat, (nat, nat)>, e: nat)
    requires Sound(free, dirs, owner) && Complete(free, dirs, owner)
    ensures Complete(free, dirs - {e}, owner) <==> forall p :: Dfn(dirs, e, p) == 0
  {
    DropDirectory(free, dirs, owner, e);
    hide Dfn;
    var dirs' := dirs - {e};
    forall p: nat | Dfn(dirs, e, p) != 0 ensures !Complete(free, dirs', owner) {
      assert owner[Dfn(dirs, e, p)] == (e, p) && Dfn(dirs', e, p) == 0;
    }
  }

  lemma SameDfnKeeps(free: seq<nat>, dirs: DiskTables, dirs': DiskTables, owner: map<nat, (nat, nat)>)
    requires DiskShape(dirs') && forall e: nat, p: nat :: Dfn(dirs', e, p) == Dfn(dirs, e, p)
    ensures Sound(free, dirs, owner) ==> Sound(free, dirs', owner)
    ensures Complete(free, dirs, owner) == Complete(free, dirs', owner)
  {
    hide Dfn;
    if Complete(free, dirs, owner) {
      forall d | 0 < d < PAGES_PER_FILE && d !in free ensures d in owner && Dfn(dirs', owner[d].0, owner[d].1) == d { }
    }
    if Complete(free, dirs', owner) {
      forall d | 0 < d < PAGES_PER_FILE && d !in free ensures d in owner && Dfn(dirs, owner[d].0, owner[d].1) == d { }
    }
  }

  /** A disk table of zeros for page p. */
  function WithDiskTable(dirs: DiskTables, e: nat, p: nat): DiskTables
    requires e in dirs
  {
    var dir: map<nat, seq<nat>> := dirs[e][Pdx(p) := seq(ENTRIES, _ => 0)];
    dirs[e := dir]
  }

  lemma NewDiskTable(dirs: DiskTables, e: nat, p: nat)
    requires DiskShape(dirs) && e in dirs && Pdx(p) !in dirs[e] && p < PAGES
    ensures DiskShape(WithDiskTable(dirs, e, p)) && HasDiskTable(WithDiskTable(dirs, e, p), e, p)
    ensures forall e': nat, p': nat :: Dfn(WithDiskTable(dirs, e, p), e', p') == Dfn(dirs, e', p')
  {
    var zeros := seq(ENTRIES, _ => 0);
    forall e': nat, p': nat ensures Dfn(WithDiskTable(dirs, e, p), e', p') == Dfn(dirs, e', p') {
      if e' == e && Pdx(p') == Pdx(p) {
        assert Dfn(WithDiskTable(dirs, e, p), e', p') == zeros[Ptx(p')];
      }
    }
  }

  lemma FirstFree(free: seq<nat>, dirs: DiskTables, owner: map<nat, (nat, nat)>)
    requires Sound(free, dirs, owner) && |free| > 0
    ensures 0 < free[0] < PAGES_PER_FILE && free[0] !in free[1..]
    ensures forall e: nat, p: nat :: Dfn(dirs, e, p) != free[0]
  {
    hide Dfn;
    assert free[0] in free;
  }

  lemma DiskShapeOf(free: seq<nat>, dirs: DiskTables, owner: map<nat, (nat, nat)>)
    requires Sound(free, dirs, owner)
    ensures DiskShape(dirs)
  {
  }

  // ---- pages in the store ----

  /** The key is one of the n pages of environment id from page p on. */
  predicate InRange(key: (nat, nat), id: nat, p: nat, n: nat) {
    key.0 == id && p <= key.1 < p + n
  }

  /** How many of the n pages from p on are not in the store. */
  ghost function NewPages(store: Store, id: nat, p: nat, n: nat): nat {
    if n == 0 then 0 else NewPages(store, id, p, n - 1) + if (id, p + n - 1) in store then 0 else 1
  }

  lemma {:induction false} NewPagesGrow(store: Store, id: nat, p: nat, m: nat, n: nat)
    requires m <= n
    ensures NewPages(store, id, p, m) <= NewPages(store, id, p, n)
    decreases n
  {
    if m < n { NewPagesGrow(store, id, p, m, n - 1); }
  }

  lemma InView(pf: PageFile, e: nat, p: nat)
    ensures (e, p) in pf.View() <==> pf.Lookup(e, p) != None
    ensures (e, p) in pf.View() ==> pf.Lookup(e, p) == Some(pf.View()[(e, p)])
  {
  }
}

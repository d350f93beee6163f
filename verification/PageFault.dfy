/** page_fault_handler and placement of kern/trap.c. */
module PageFault {
  import opened Layout
  import opened PageTables
  import opened ModifiedClock
  import opened WorkingSet
  import opened PageFile
  import FramePool
  import M = Memory

  /** sizeof(struct WorkingSetElement) */
  const WS_ELEMENT_SIZE := 12
  /** The product is one of 32-bit numbers, and wraps. */
  const USER_PAGES_WS_MAX: uint32 := USER_HEAP_MAX + WS_ELEMENT_SIZE * USER_TOP % 0x1_0000_0000 / PAGE_SIZE
  const USTACKBOTTOM: uint32 := RoundUp(USER_PAGES_WS_MAX, PAGE_SIZE)

  /** Without the wrap it would be 0xA0B3_1000. */
  lemma StackBottom()
    ensures USTACKBOTTOM == 0xA003_1000
  {
  }

  /** The last argument of map_frame in placement and in the replacement path, which adds what map_frame adds anyway. */
  const USER_PERM: set<Perm> := {Present, Writeable, User}

  /** A page that joins the working set in an empty slot. */
  lemma ResidentJoins(n: nat, slots: seq<Slot>, before: Tables, tables: Tables, dirs: Dirs, dir: nat,
                      home: map<nat, nat>, startAdd: int, i: nat, va: uint32)
    requires Resident(n, slots, before, dirs, dir, home, startAdd) && i < |slots| && slots[i].empty && va < USER_TOP
    requires Present !in EntryAt(before, dirs, dir, va / PAGE_SIZE).perm
    requires SameElsewhere(before, dirs, tables, dirs, dir, va / PAGE_SIZE)
    requires Private(n, tables, dirs, dir, home, startAdd, va / PAGE_SIZE)
    requires HoldersKept(slots, before, tables, dirs, dir)
    ensures Resident(n, WithPage(slots, i, va), tables, dirs, dir, home, startAdd)
  {
    hide EntryAt, Holders;
    var slots' := WithPage(slots, i, va);
    forall j | 0 <= j < |slots| && !slots'[j].empty
      ensures Private(n, tables, dirs, dir, home, startAdd, slots'[j].va / PAGE_SIZE)
    {
      if j != i { assert IsPage(dirs, dir, slots[j].va / PAGE_SIZE); }
    }
  }

  /** The frames of the working-set pages still have one holder each. */
  ghost predicate HoldersKept(slots: seq<Slot>, before: Tables, tables: Tables, dirs: Dirs, dir: nat) {
    forall j :: 0 <= j < |slots| && !slots[j].empty ==>
      |Holders(tables, EntryAt(before, dirs, dir, slots[j].va / PAGE_SIZE).frame)| == 1
  }

  lemma SameCountsKept(slots: seq<Slot>, before: Tables, mapped: Tables, tables: Tables, dirs: Dirs, dir: nat)
    requires HoldersKept(slots, before, mapped, dirs, dir)
    requires forall g: nat :: |Holders(tables, g)| == |Holders(mapped, g)|
    ensures HoldersKept(slots, before, tables, dirs, dir)
  {
    hide EntryAt, Holders;
  }

  /** References that stay as they are keep the number of holders. */
  lemma SameReferences(n: nat, s: FramePool.Pool, s': FramePool.Pool, slots: seq<Slot>, before: Tables, tables: Tables,
                       dirs: Dirs, dir: nat, home: map<nat, nat>, startAdd: int)
    requires FramePool.Ok(n, s, before) && FramePool.Ok(n, s', tables) && s'.boot == s.boot
    requires Resident(n, slots, before, dirs, dir, home, startAdd)
    requires forall g :: 0 <= g < |s.refs| == |s'.refs| && s.refs[g] > 0 ==> s'.refs[g] == s.refs[g]
    ensures HoldersKept(slots, before, tables, dirs, dir)
  {
    hide EntryAt, Holders, FramePool.Ok;
    forall j | 0 <= j < |slots| && !slots[j].empty
      ensures |Holders(tables, EntryAt(before, dirs, dir, slots[j].va / PAGE_SIZE).frame)| == 1
    {
      var f := EntryAt(before, dirs, dir, slots[j].va / PAGE_SIZE).frame;
      FramePool.HolderCount(n, s, before, f);
      FramePool.HolderCount(n, s', tables, f);
      assert s.boot[f] >= 0;
    }
  }

  /** The entry of one page changes and no frame gains or loses a holder. */
  lemma ResidentStays(n: nat, slots: seq<Slot>, before: Tables, tables: Tables, dirs: Dirs, dir: nat, home: map<nat, nat>,
                      startAdd: int, page: nat)
    requires forall g: nat :: |Holders(tables, g)| == |Holders(before, g)|
    requires Resident(n, slots, before, dirs, dir, home, startAdd)
    requires SameElsewhere(before, dirs, tables, dirs, dir, page) && Private(n, tables, dirs, dir, home, startAdd, page)
    ensures Resident(n, slots, tables, dirs, dir, home, startAdd)
  {
    hide EntryAt, Holders;
    forall j | 0 <= j < |slots| && !slots[j].empty
      ensures Private(n, tables, dirs, dir, home, startAdd, slots[j].va / PAGE_SIZE)
    {
      assert IsPage(dirs, dir, slots[j].va / PAGE_SIZE);
    }
  }

  /** A frame nobody held goes to an absent page: the frames of the working set, none of them buffered, are not touched. */
  lemma NewFrameHolders(n: nat, s: FramePool.Pool, slots: seq<Slot>, before: Tables, tables: Tables, dirs: Dirs, dir: nat,
                        home: map<nat, nat>, startAdd: int, t: nat, i: nat, e: Entry)
    requires FramePool.Ok(n, s, before) && Resident(n, slots, before, dirs, dir, home, startAdd)
    requires t in before && i < |before[t]| && Present !in before[t][i].perm && tables == Write(before, t, i, e)
    requires e != EMPTY && Holders(before, e.frame) == {}
    ensures HoldersKept(slots, before, tables, dirs, dir) && |Holders(tables, e.frame)| == 1
  {
    hide EntryAt, Holders, FramePool.Ok;
    if Holds(before[t][i], e.frame) { HolderCounts(before, t, i); }
    HoldersAfterWrite(before, t, i, e, e.frame);
    forall j | 0 <= j < |slots| && !slots[j].empty
      ensures |Holders(tables, EntryAt(before, dirs, dir, slots[j].va / PAGE_SIZE).frame)| == 1
    {
      var q := slots[j].va / PAGE_SIZE;
      PresentNotWaiting(n, s, before, dirs, dir, q, t, i);
      HoldersAfterWrite(before, t, i, e, EntryAt(before, dirs, dir, q).frame);
    }
  }

  /** The frame of a present page is not the one a buffered entry holds. */
  lemma PresentNotWaiting(n: nat, s: FramePool.Pool, tables: Tables, dirs: Dirs, dir: nat, page: nat, t: nat, i: nat)
    requires FramePool.Ok(n, s, tables) && Present in EntryAt(tables, dirs, dir, page).perm
    requires t in tables && i < |tables[t]| && Present !in tables[t][i].perm
    ensures !Holds(tables[t][i], EntryAt(tables, dirs, dir, page).frame)
  {
    hide Holders;
    assert FramePool.EntryFlagged(n, s, EntryAt(tables, dirs, dir, page)) && FramePool.EntryFlagged(n, s, tables[t][i]);
  }

  /** allocate_frame and map_frame at an absent page, which may be a buffered one: map_frame does not look. */
  method MapNewFrame(env: Env, mem: M.Memory, va: uint32, perm: set<Perm>) returns (f: nat)
    requires IsPage(mem.dirs, env.dir, va / PAGE_SIZE) && va < USER_TOP && Buffered !in perm
    requires HasTable(mem.dirs, env.dir, va / PAGE_SIZE) && mem.Reachable(env.dir, va / PAGE_SIZE)
    requires Present !in mem.At(env.dir, va / PAGE_SIZE).perm && FramePool.CanAllocate(mem.Frames())
    requires env.Valid(mem)
    modifies mem
    ensures mem.Tallied() && (mem.Valid() <==> old(mem.At(env.dir, va / PAGE_SIZE)) == EMPTY)
    ensures old(mem.At(env.dir, va / PAGE_SIZE)) != EMPTY ==> FramePool.Stray(mem.n, mem.Frames(), mem.tables)
    ensures mem.dirs == old(mem.dirs) && mem.home == old(mem.home) && mem.startAdd == old(mem.startAdd)
    ensures f < mem.n && f == old(mem.freeList)[0] && mem.Frames() == FramePool.Mapped(FramePool.Allocated(old(mem.Frames())), f)
    ensures mem.At(env.dir, va / PAGE_SIZE) == Entry(f, perm + {Present})
    ensures SameElsewhere(old(mem.tables), mem.dirs, mem.tables, mem.dirs, env.dir, va / PAGE_SIZE)
    ensures Private(mem.n, mem.tables, mem.dirs, env.dir, mem.home, mem.startAdd, va / PAGE_SIZE)
    ensures HoldersKept(env.ws[..], old(mem.tables), mem.tables, mem.dirs, env.dir)
  {
    hide FramePool.Ok, M.Structured, Holders, Resident;
    ghost var s, before, t, i := mem.Frames(), mem.tables, mem.dirs[env.dir][Pdx(va / PAGE_SIZE)].frame, Ptx(va / PAGE_SIZE);
    mem.TableExists(env.dir, va / PAGE_SIZE);
    mem.AbsentEntry(env.dir, va / PAGE_SIZE);
    f := mem.AllocateFrame();
    if Holds(before[t][i], f) { HolderCounts(before, t, i); }
    var _ := mem.MapFrame(env.dir, f, va, perm);
    NewFrameHolders(mem.n, s, env.ws[..], before, mem.tables, mem.dirs, env.dir, mem.home, mem.startAdd, t, i, Entry(f, perm + {Present}));
  }

  /** pf_read_env_page: the page's copy in the page file; what the copying marks as modified is not. */
  method ReadPage(env: Env, mem: M.Memory, pf: PageFile, va: uint32) returns (code: int, content: Page)
    requires mem.Tallied() && pf.Valid() && IsPage(mem.dirs, env.dir, va / PAGE_SIZE) && va < USER_TOP
    requires Private(mem.n, mem.tables, mem.dirs, env.dir, mem.home, mem.startAdd, va / PAGE_SIZE)
    modifies mem`tables
    ensures mem.Tallied() && (old(mem.Valid()) ==> mem.Valid())
    ensures old(FramePool.Stray(mem.n, mem.Frames(), mem.tables)) ==> FramePool.Stray(mem.n, mem.Frames(), mem.tables)
    ensures code == if pf.Lookup(env.id, va / PAGE_SIZE) == None then E_PAGE_NOT_EXIST_IN_PF else 0
    ensures code == 0 ==> pf.Lookup(env.id, va / PAGE_SIZE) == Some(content)
    ensures var e := old(mem.At(env.dir, va / PAGE_SIZE));
      mem.At(env.dir, va / PAGE_SIZE) == if code == 0 then Entry(e.frame, e.perm - {Modified}) else e
    ensures SameElsewhere(old(mem.tables), mem.dirs, mem.tables, mem.dirs, env.dir, va / PAGE_SIZE)
    ensures Private(mem.n, mem.tables, mem.dirs, env.dir, mem.home, mem.startAdd, va / PAGE_SIZE)
    ensures forall g: nat :: |Holders(mem.tables, g)| == |Holders(old(mem.tables), g)|
  {
    hide FramePool.Ok, M.Structured, Holders, EntryAt, FramePool.Stray;
    ghost var s, before := mem.Frames(), mem.tables;
    code, content := pf.ReadEnvPage(env.id, RoundDown(va, PAGE_SIZE), true);
    if code == 0 {
      ghost var e := mem.At(env.dir, va / PAGE_SIZE);
      mem.MappedEntry(env.dir, va / PAGE_SIZE);
      mem.SetPagePermissions(env.dir, RoundDown(va, PAGE_SIZE), {}, {Modified});
      assert e.perm + {} - {Modified} == e.perm - {Modified} && Present in e.perm - {Modified};
      if FramePool.Stray(mem.n, s, before) { FramePool.StaysStray(mem.n, s, before, mem.tables); }
    }
  }

  /**
   * What placement and the replacement path share: a fresh frame, filled from the page file. A page
   * the page file does not hold must lie in the stack, from low up, and is added there.
   */
  method Load(env: Env, mem: M.Memory, pf: PageFile, va: uint32, perm: set<Perm>, low: int, zero: bool)
    returns (panic: bool, loaded: Option<Page>)
    requires IsPage(mem.dirs, env.dir, va / PAGE_SIZE) && va < USTACKTOP
    requires HasTable(mem.dirs, env.dir, va / PAGE_SIZE) && mem.Reachable(env.dir, va / PAGE_SIZE)
    requires Present !in mem.At(env.dir, va / PAGE_SIZE).perm && FramePool.CanAllocate(mem.Frames())
    requires Buffered !in perm && Modified !in perm && low % PAGE_SIZE == 0
    requires env.Valid(mem) && pf.Valid()
    modifies mem, pf
    ensures mem.Tallied() && (mem.Valid() <==> old(mem.At(env.dir, va / PAGE_SIZE)) == EMPTY)
    ensures old(mem.At(env.dir, va / PAGE_SIZE)) != EMPTY ==> FramePool.Stray(mem.n, mem.Frames(), mem.tables)
    ensures mem.dirs == old(mem.dirs) && mem.home == old(mem.home) && mem.startAdd == old(mem.startAdd)
    ensures mem.Frames() == FramePool.Mapped(FramePool.Allocated(old(mem.Frames())), old(mem.freeList)[0])
    ensures mem.At(env.dir, va / PAGE_SIZE) == Entry(old(mem.freeList)[0], perm + {Present})
    ensures SameElsewhere(old(mem.tables), mem.dirs, mem.tables, mem.dirs, env.dir, va / PAGE_SIZE)
    ensures Private(mem.n, mem.tables, mem.dirs, env.dir, mem.home, mem.startAdd, va / PAGE_SIZE)
    ensures HoldersKept(env.ws[..], old(mem.tables), mem.tables, mem.dirs, env.dir)
    ensures panic <==> old(pf.Lookup(env.id, va / PAGE_SIZE)) == None && va < low
    ensures loaded == old(pf.Lookup(env.id, va / PAGE_SIZE))
    ensures pf.Valid() && (old(pf.NoLeak()) ==> pf.NoLeak()) && PageAdded(pf, env.id, va / PAGE_SIZE, zero, panic)
  {
    hide FramePool.Ok, M.Structured, Holders, EntryAt, Resident, Sound, Complete, FramePool.Stray, HoldersKept, SameElsewhere, Private;
    ghost var before := mem.tables;
    var f := MapNewFrame(env, mem, va, perm);
    ghost var mapped := mem.tables;
    var code, content := ReadPage(env, mem, pf, va);
    SameElsewhereTwice(before, mapped, mem.tables, mem.dirs, env.dir, va / PAGE_SIZE);
    SameCountsKept(env.ws[..], before, mapped, mem.tables, mem.dirs, env.dir);
    if FramePool.Stray(mem.n, mem.Frames(), mem.tables) { FramePool.StrayIsNotOk(mem.n, mem.Frames(), mem.tables); }
    panic, loaded := false, None;
    if code == E_PAGE_NOT_EXIST_IN_PF {
      if low <= RoundDown(va, PAGE_SIZE) && RoundDown(va, PAGE_SIZE) < USTACKTOP {
        var _ := pf.AddEmptyEnvPage(env.id, RoundDown(va, PAGE_SIZE), zero);
      } else {
        panic := true;
      }
    } else {
      loaded := Some(content);
    }
  }

  /**
   * After a fault the page file holds the page as it did, or a new one when it lacked the page and had room: a copy of
   * the zero page, or whatever the disk frame held.
   */
  twostate predicate PageAdded(pf: PageFile, id: nat, page: nat, zero: bool, panic: bool)
    reads pf
  {
    && (forall e': nat, p': nat :: e' != id || p' != page ==> pf.Lookup(e', p') == old(pf.Lookup(e', p')))
    && pf.freeList == (if old(pf.Lookup(id, page)) == None && !panic && old(pf.freeList) != [] then old(pf.freeList)[1..]
                       else old(pf.freeList))
    && (old(pf.Lookup(id, page)) != None || panic ==> pf.Lookup(id, page) == old(pf.Lookup(id, page)))
    && (old(pf.Lookup(id, page)) == None && !panic ==> (pf.Lookup(id, page) == None <==> old(pf.freeList) == []))
    && (old(pf.Lookup(id, page)) == None && !panic && old(pf.freeList) != [] ==>
          if zero then pf.Lookup(id, page) == Some(pf.zeroPage)
          else old(pf.freeList)[0] < |old(pf.disk)| && pf.Lookup(id, page) == Some(old(pf.disk)[old(pf.freeList)[0]]))
  }

  /** i is the first empty slot. */
  ghost predicate FirstEmpty(slots: seq<Slot>, i: nat) {
    i < |slots| && slots[i].empty && forall j :: 0 <= j < i ==> !slots[j].empty
  }

  method Placement(env: Env, mem: M.Memory, pf: PageFile, va: uint32) returns (panic: bool, ghost i: nat)
    requires IsPage(mem.dirs, env.dir, va / PAGE_SIZE) && va < USTACKTOP
    requires HasTable(mem.dirs, env.dir, va / PAGE_SIZE) && mem.Reachable(env.dir, va / PAGE_SIZE)
    requires Present !in mem.At(env.dir, va / PAGE_SIZE).perm && FramePool.CanAllocate(mem.Frames())
    requires exists j :: 0 <= j < env.ws.Length && env.ws[j].empty
    requires env.Valid(mem) && pf.Valid()
    modifies mem, pf, env`hand, env.ws
    ensures panic <==> old(pf.Lookup(env.id, va / PAGE_SIZE)) == None && va < USER_HEAP_MAX
    ensures pf.Valid() && (old(pf.NoLeak()) ==> pf.NoLeak()) && PageAdded(pf, env.id, va / PAGE_SIZE, true, panic)
    ensures mem.dirs == old(mem.dirs) && mem.home == old(mem.home) && mem.startAdd == old(mem.startAdd)
    ensures mem.Frames() == FramePool.Mapped(FramePool.Allocated(old(mem.Frames())), old(mem.freeList)[0])
    ensures mem.At(env.dir, va / PAGE_SIZE) == Entry(old(mem.freeList)[0], {Present, Writeable, User})
    ensures SameElsewhere(old(mem.tables), mem.dirs, mem.tables, mem.dirs, env.dir, va / PAGE_SIZE)
    ensures Private(mem.n, mem.tables, mem.dirs, env.dir, mem.home, mem.startAdd, va / PAGE_SIZE)
    ensures mem.Tallied() && (mem.Valid() <==> old(mem.At(env.dir, va / PAGE_SIZE)) == EMPTY)
    ensures old(mem.At(env.dir, va / PAGE_SIZE)) != EMPTY ==> FramePool.Stray(mem.n, mem.Frames(), mem.tables)
    ensures !panic ==> FirstEmpty(old(env.ws[..]), i) && env.Resides(mem) && env.hand == After(env.ws.Length, i, 1)
    ensures !panic ==> env.ws[..] == WithPage(old(env.ws[..]), i, va)
  {
    hide FramePool.Ok, M.Structured, Holders, EntryAt, Resident, Sound, Complete, FramePool.Stray;
    ghost var before, slots := mem.tables, env.ws[..];
    SamePerm();
    var loaded;
    panic, loaded := Load(env, mem, pf, va, {Writeable, User}, USER_HEAP_MAX, true);
    i := 0;
    if panic {
      return;
    }
    i := FillFirstEmpty(env, va);
    ResidentJoins(mem.n, slots, before, mem.tables, mem.dirs, env.dir, mem.home, mem.startAdd, i, va);
  }

  lemma SamePerm()
    ensures ({Writeable, User} + {Present}) == USER_PERM
  {
  }

  /** The last loop of placement. */
  method FillFirstEmpty(env: Env, va: uint32) returns (ghost i: nat)
    requires va < USTACKTOP && exists j :: 0 <= j < env.ws.Length && env.ws[j].empty
    modifies env`hand, env.ws
    ensures FirstEmpty(old(env.ws[..]), i) && env.hand == After(env.ws.Length, i, 1)
    ensures env.ws[..] == WithPage(old(env.ws[..]), i, va)
  {
    var k := 0;
    while k < env.ws.Length
      invariant 0 <= k <= env.ws.Length && env.ws[..] == old(env.ws[..]) && env.hand == old(env.hand)
      invariant forall j :: 0 <= j < k ==> !env.ws[j].empty
    {
      if env.ws[k].empty {
        break;
      }
      k := k + 1;
    }
    i := k;
    env.SetEntry(k, va);
    env.hand := k + 1;
    if env.hand == env.ws.Length {
      env.hand := 0;
    }
  }

  lemma AfterPlacement()
    ensures USER_PERM - {Modified} == USER_PERM
  {
  }

  /** What page_fault_handler does once placement has returned; the page is missing only if the page file is full. */
  method ReadPlaced(env: Env, mem: M.Memory, pf: PageFile, va: uint32) returns (panic: bool, loaded: Option<Page>)
    requires IsPage(mem.dirs, env.dir, va / PAGE_SIZE) && va < USTACKTOP
    requires Private(mem.n, mem.tables, mem.dirs, env.dir, mem.home, mem.startAdd, va / PAGE_SIZE)
    requires pf.Lookup(env.id, va / PAGE_SIZE) == None ==> pf.freeList == []
    requires env.Resides(mem) && mem.Tallied() && pf.Valid()
    modifies mem`tables, pf
    ensures panic == (old(pf.Lookup(env.id, va / PAGE_SIZE)) == None && va < USTACKBOTTOM)
    ensures loaded == old(pf.Lookup(env.id, va / PAGE_SIZE))
    ensures pf.Valid() && (old(pf.NoLeak()) ==> pf.NoLeak()) && pf.freeList == old(pf.freeList)
    ensures forall e': nat, p': nat :: pf.Lookup(e', p') == old(pf.Lookup(e', p'))
    ensures env.Resides(mem) && mem.Tallied() && (old(mem.Valid()) ==> mem.Valid())
    ensures old(FramePool.Stray(mem.n, mem.Frames(), mem.tables)) ==> FramePool.Stray(mem.n, mem.Frames(), mem.tables)
    ensures var e := old(mem.At(env.dir, va / PAGE_SIZE));
      mem.At(env.dir, va / PAGE_SIZE) == if loaded != None then Entry(e.frame, e.perm - {Modified}) else e
    ensures SameElsewhere(old(mem.tables), mem.dirs, mem.tables, mem.dirs, env.dir, va / PAGE_SIZE)
  {
    hide FramePool.Ok, M.Structured, Holders, EntryAt, Resident, Sound, Complete, SameElsewhere, Private, FramePool.Stray;
    ghost var placed := mem.tables;
    panic, loaded := false, None;
    var code, content := ReadPage(env, mem, pf, va);
    ResidentStays(mem.n, env.ws[..], placed, mem.tables, mem.dirs, env.dir, mem.home, mem.startAdd, va / PAGE_SIZE);
    if code == E_PAGE_NOT_EXIST_IN_PF {
      if USTACKBOTTOM <= va && va < USTACKTOP {
        var _ := pf.AddEmptyEnvPage(env.id, va, false);
      } else {
        panic := true;
      }
    } else {
      loaded := Some(content);
    }
  }

  /** page_fault_handler while the working set has room. */
  method FaultWithRoom(env: Env, mem: M.Memory, pf: PageFile, va: uint32)
    returns (panic: bool, loaded: Option<Page>, ghost i: nat)
    requires IsPage(mem.dirs, env.dir, va / PAGE_SIZE) && va < USTACKTOP
    requires HasTable(mem.dirs, env.dir, va / PAGE_SIZE) && mem.Reachable(env.dir, va / PAGE_SIZE)
    requires Present !in mem.At(env.dir, va / PAGE_SIZE).perm && FramePool.CanAllocate(mem.Frames())
    requires env.hand < env.ws.Length && exists j :: 0 <= j < env.ws.Length && env.ws[j].empty
    requires env.Valid(mem) && pf.Valid()
    modifies mem, pf, env`hand, env.ws
    ensures panic == (old(pf.Lookup(env.id, va / PAGE_SIZE)) == None
                      && (va < USER_HEAP_MAX || (old(pf.freeList) == [] && va < USTACKBOTTOM)))
    ensures pf.Valid() && (old(pf.NoLeak()) ==> pf.NoLeak())
    ensures !panic ==> PageAdded(pf, env.id, va / PAGE_SIZE, true, false) && loaded == pf.Lookup(env.id, va / PAGE_SIZE)
    ensures !panic ==> FirstEmpty(old(env.ws[..]), i) && env.Resides(mem) && env.hand == After(env.ws.Length, old(env.hand), 1)
    ensures !panic ==> env.ws[..] == WithPage(old(env.ws[..]), i, va)
    ensures mem.Tallied() && (mem.Valid() <==> old(mem.At(env.dir, va / PAGE_SIZE)) == EMPTY)
    ensures old(mem.At(env.dir, va / PAGE_SIZE)) != EMPTY ==> FramePool.Stray(mem.n, mem.Frames(), mem.tables)
    ensures !panic ==> mem.dirs == old(mem.dirs) && mem.At(env.dir, va / PAGE_SIZE) == Entry(old(mem.freeList)[0], {Present, Writeable, User})
    ensures !panic ==> mem.Frames() == FramePool.Mapped(FramePool.Allocated(old(mem.Frames())), old(mem.freeList)[0])
    ensures !panic ==> SameElsewhere(old(mem.tables), mem.dirs, mem.tables, mem.dirs, env.dir, va / PAGE_SIZE)
  {
    hide FramePool.Ok, M.Structured, Holders, EntryAt, Resident, Sound, Complete, SameElsewhere, Private, FramePool.Stray;
    var lastIDX := env.hand;
    ghost var before := mem.tables;
    loaded := None;
    panic, i := Placement(env, mem, pf, va);
    if panic {
      return;
    }
    ghost var placed := mem.tables;
    panic, loaded := ReadPlaced(env, mem, pf, va);
    SameElsewhereTwice(before, placed, mem.tables, mem.dirs, env.dir, va / PAGE_SIZE);
    AfterPlacement();
    if FramePool.Stray(mem.n, mem.Frames(), mem.tables) { FramePool.StrayIsNotOk(mem.n, mem.Frames(), mem.tables); }
    if panic {
      return;
    }
    if lastIDX == env.ws.Length - 1 {
      env.hand := 0;
    } else {
      env.hand := lastIDX + 1;
    }
  }

  // ---- replacement ----

  ghost function PermsOf(slots: seq<Slot>, tables: Tables, dirs: Dirs, dir: nat): (ps: Perms)
    ensures |ps| == |slots|
    ensures forall i :: 0 <= i < |slots| ==> ps[i] == EntryAt(tables, dirs, dir, slots[i].va / PAGE_SIZE).perm
  {
    seq(|slots|, i requires 0 <= i < |slots| => EntryAt(tables, dirs, dir, slots[i].va / PAGE_SIZE).perm)
  }

  lemma StartSearch(n: nat, slots: seq<Slot>, tables: Tables, dirs: Dirs, dir: nat, home: map<nat, nat>, startAdd: int)
    requires Resident(n, slots, tables, dirs, dir, home, startAdd) && forall i :: 0 <= i < |slots| ==> !slots[i].empty
    ensures Searching(n, slots, tables, tables, dirs, dir, home, startAdd, PermsOf(slots, tables, dirs, dir))
    ensures forall i :: 0 <= i < |slots| ==> Present in EntryAt(tables, dirs, dir, slots[i].va / PAGE_SIZE).perm
  {
    hide EntryAt, Holders;
    NoPermsChanged(tables, dirs, dir, PagesOf(slots), PermsOf(slots, tables, dirs, dir));
  }

  /** The working-set pages after a replacement: the victim is buffered, the others lost the used bits the search took. */
  ghost predicate Replaced(before: Tables, tables: Tables, dirs: Dirs, dir: nat, pages: seq<nat>, ps: Perms, v: nat, page: nat) {
    && |ps| == |pages| && v < |pages|
    && EntryAt(tables, dirs, dir, pages[v]) == Entry(EntryAt(before, dirs, dir, pages[v]).frame, ps[v] + {Buffered} - {Present})
    && (forall i :: 0 <= i < |pages| && i != v ==>
          EntryAt(tables, dirs, dir, pages[i]) == Entry(EntryAt(before, dirs, dir, pages[i]).frame, ps[i]))
    && (forall d, p :: IsPage(dirs, d, p) && !(d == dir && (p in pages || p == page)) ==>
          EntryAt(tables, dirs, d, p) == EntryAt(before, dirs, d, p))
  }

  lemma ReplacementSteps(t0: Tables, t1: Tables, t2: Tables, t3: Tables, dirs: Dirs, dir: nat, pages: seq<nat>, ps: Perms,
                         v: nat, page: nat)
    requires OnlyPerms(t0, t1, dirs, dir, pages, ps) && v < |pages| && page !in pages && page < USER_TOP_PAGE
    requires forall i, j :: 0 <= i < j < |pages| ==> pages[i] != pages[j]
    requires forall i :: 0 <= i < |pages| ==> IsPage(dirs, dir, pages[i]) && pages[i] < USER_TOP_PAGE
    requires SameElsewhere(t1, dirs, t2, dirs, dir, pages[v]) && (t3 == t2 || SameElsewhere(t2, dirs, t3, dirs, dir, page))
    requires EntryAt(t2, dirs, dir, pages[v]) == Entry(EntryAt(t1, dirs, dir, pages[v]).frame, ps[v] + {Buffered} - {Present})
    ensures Replaced(t0, t3, dirs, dir, pages, ps, v, page)
  {
    hide EntryAt;
    forall d, p | IsPage(dirs, d, p) && !(d == dir && (p in pages || p == page))
      ensures EntryAt(t3, dirs, d, p) == EntryAt(t0, dirs, d, p)
    {
      assert d != dir || p != pages[v];
    }
  }

  /** The page in slot v leaves the working set. */
  lemma ResidentLeaves(n: nat, s: FramePool.Pool, s': FramePool.Pool, slots: seq<Slot>, before: Tables, tables: Tables,
                       dirs: Dirs, dir: nat, home: map<nat, nat>, startAdd: int, v: nat)
    requires FramePool.Ok(n, s, before) && FramePool.Ok(n, s', tables) && s'.boot == s.boot && s'.refs == s.refs
    requires Resident(n, slots, before, dirs, dir, home, startAdd) && v < |slots| && !slots[v].empty
    requires SameElsewhere(before, dirs, tables, dirs, dir, slots[v].va / PAGE_SIZE)
    ensures Resident(n, slots[v := Slot(0, true, 0)], tables, dirs, dir, home, startAdd)
  {
    hide EntryAt, Holders, FramePool.Ok;
    SameReferences(n, s, s', slots, before, tables, dirs, dir, home, startAdd);
    var slots' := slots[v := Slot(0, true, 0)];
    forall j | 0 <= j < |slots| && !slots'[j].empty
      ensures Private(n, tables, dirs, dir, home, startAdd, slots'[j].va / PAGE_SIZE)
    {
      assert IsPage(dirs, dir, slots[j].va / PAGE_SIZE);
    }
  }

  /** What the search and the replacement leave of the page tables, with the permissions the victim search saw. */
  twostate predicate VictimReplaced(env: Env, mem: M.Memory, slot: nat, page: nat)
    reads env, env.ws, mem
  {
    var ps := PermsOf(old(env.ws[..]), old(mem.tables), mem.dirs, env.dir);
    && IsVictim(ps, old(env.hand), slot)
    && Replaced(old(mem.tables), mem.tables, mem.dirs, env.dir, PagesOf(old(env.ws[..])),
                FinalPerms(ps, old(env.hand), slot), slot, page)
  }

  /** The first half of the replacement path: find a victim and buffer its page. */
  method Evict(env: Env, mem: M.Memory, ghost page: nat) returns (lastIDX: nat)
    requires env.hand < env.ws.Length && forall i :: 0 <= i < env.ws.Length ==> !env.ws[i].empty
    requires Present !in mem.At(env.dir, page).perm
    requires IsPage(mem.dirs, env.dir, page) && page < USER_TOP_PAGE
    requires env.Valid(mem)
    modifies mem`isBuffered, mem`freeList, mem`modifiedList, mem`tables, env`hand, env.ws
    ensures mem.Valid()
    ensures old(FramePool.CanAllocate(mem.Frames())) ==> FramePool.CanAllocate(mem.Frames()) && mem.freeList[0] == old(mem.freeList)[0]
    ensures mem.At(env.dir, page) == old(mem.At(env.dir, page))
    ensures lastIDX < env.ws.Length && env.ws[..] == old(env.ws[..])[lastIDX := Slot(0, true, 0)]
    ensures env.Valid(mem)
    ensures page !in PagesOf(old(env.ws[..])) && forall i :: 0 <= i < env.ws.Length ==> IsPage(mem.dirs, env.dir, PagesOf(old(env.ws[..]))[i])
    ensures VictimReplaced(env, mem, lastIDX, page)
    ensures var v := old(env.ws[..])[lastIDX].va / PAGE_SIZE;
      && old(mem.At(env.dir, v)).frame < |old(mem.isBuffered)|
      && mem.Frames() == FramePool.Victimised(old(mem.Frames()), Entry(old(mem.At(env.dir, v)).frame,
           FinalPerms(PermsOf(old(env.ws[..]), old(mem.tables), mem.dirs, env.dir), old(env.hand), lastIDX)[lastIDX]))
  {
    hide FramePool.Ok, M.Structured, Holders, EntryAt, Resident, Searching, IsVictim, FinalPerms, OnlyPerms;
    ghost var slots, t0 := env.ws[..], mem.tables;
    ghost var ps := PermsOf(slots, t0, mem.dirs, env.dir);
    StartSearch(mem.n, slots, t0, mem.dirs, env.dir, mem.home, mem.startAdd);
    EnvInSearch(env, mem, ps);
    var victim;
    ghost var steps;
    victim, lastIDX, steps := FindVictim(env, mem, ps);
    ghost var t1, s1, fin := mem.tables, mem.Frames(), FinalPerms(ps, old(env.hand), lastIDX);
    SearchEnd(mem.n, slots, t0, t1, mem.dirs, env.dir, mem.home, mem.startAdd, fin, lastIDX, page);
    mem.PresentFrame(env.dir, victim / PAGE_SIZE);
    mem.BufferPage(env.dir, victim);
    ResidentLeaves(mem.n, s1, mem.Frames(), slots, t1, mem.tables, mem.dirs, env.dir, mem.home, mem.startAdd, lastIDX);
    assert IsPage(mem.dirs, env.dir, page) && page != victim / PAGE_SIZE;
    ReplacementSteps(t0, t1, mem.tables, mem.tables, mem.dirs, env.dir, PagesOf(slots), fin, lastIDX, page);
  }

  lemma EnvInSearch(env: Env, mem: M.Memory, ps: Perms)
    requires mem.Valid() && |ps| == env.ws.Length
    requires Searching(mem.n, env.ws[..], mem.tables, mem.tables, mem.dirs, env.dir, mem.home, mem.startAdd, ps)
    ensures InSearch(env, mem, mem.tables, ps)
  {
  }

  /** What the search leaves: the victim is still a private page, and the faulted page is none of the working set. */
  lemma SearchEnd(n: nat, slots: seq<Slot>, start: Tables, tables: Tables, dirs: Dirs, dir: nat,
                  home: map<nat, nat>, startAdd: int, ps: Perms, v: nat, page: nat)
    requires Searching(n, slots, start, tables, dirs, dir, home, startAdd, ps) && v < |slots|
    requires Present !in EntryAt(start, dirs, dir, page).perm && IsPage(dirs, dir, page)
    requires forall i :: 0 <= i < |slots| ==> Present in EntryAt(start, dirs, dir, slots[i].va / PAGE_SIZE).perm
    ensures Resident(n, slots, tables, dirs, dir, home, startAdd) && OnlyPerms(start, tables, dirs, dir, PagesOf(slots), ps)
    ensures |ps| == |slots| && !slots[v].empty && Private(n, tables, dirs, dir, home, startAdd, slots[v].va / PAGE_SIZE)
    ensures PagesOf(slots)[v] == slots[v].va / PAGE_SIZE && EntryAt(tables, dirs, dir, slots[v].va / PAGE_SIZE).perm == ps[v]
    ensures page !in PagesOf(slots) && EntryAt(tables, dirs, dir, page) == EntryAt(start, dirs, dir, page)
    ensures forall i :: 0 <= i < |slots| ==> IsPage(dirs, dir, PagesOf(slots)[i]) && PagesOf(slots)[i] < USER_TOP_PAGE
    ensures forall i, j :: 0 <= i < j < |slots| ==> PagesOf(slots)[i] != PagesOf(slots)[j]
  {
    hide EntryAt, Holders;
    var pages := PagesOf(slots);
    forall i | 0 <= i < |slots| ensures pages[i] == slots[i].va / PAGE_SIZE && pages[i] != page && slots[i].va % PAGE_SIZE == 0 {
    }
  }

  /** The victim is clean, or the modified list does not reach the length at which it is flushed. */
  ghost predicate NoFlush(env: Env, mem: M.Memory, bufferLength: nat)
    reads env, env.ws, mem
  {
    var ps := PermsOf(env.ws[..], mem.tables, mem.dirs, env.dir);
    forall v: nat :: IsVictim(ps, env.hand, v) && Modified in ps[v] ==> |mem.modifiedList| + 1 != bufferLength
  }

  /** A buffered page is present again in the frame it waited in; another gets a fresh frame and its page-file copy. */
  twostate predicate BroughtIn(env: Env, mem: M.Memory, pf: PageFile, page: nat, new loaded: Option<Page>, panic: bool)
    reads mem, pf
  {
    var e := old(mem.At(env.dir, page));
    if e != EMPTY then
      && mem.At(env.dir, page) == Entry(e.frame, e.perm + {Present} - {Buffered}) && loaded == None
      && (forall e': nat, p': nat :: pf.Lookup(e', p') == old(pf.Lookup(e', p')))
    else
      && |old(mem.freeList)| > 0 && mem.At(env.dir, page) == Entry(old(mem.freeList)[0], {Present, Writeable, User})
      && loaded == old(pf.Lookup(env.id, page)) && PageAdded(pf, env.id, page, false, panic)
  }

  /** page_fault_handler when the working set is full; flushing the modified list is not reached. */
  method FaultWhenFull(env: Env, mem: M.Memory, pf: PageFile, va: uint32, bufferLength: nat)
    returns (panic: bool, loaded: Option<Page>, lastIDX: nat)
    requires IsPage(mem.dirs, env.dir, va / PAGE_SIZE) && va < USTACKTOP
    requires HasTable(mem.dirs, env.dir, va / PAGE_SIZE) && mem.Reachable(env.dir, va / PAGE_SIZE)
    requires Present !in mem.At(env.dir, va / PAGE_SIZE).perm
    requires mem.At(env.dir, va / PAGE_SIZE) == EMPTY ==> FramePool.CanAllocate(mem.Frames())
    requires env.hand < env.ws.Length && forall j :: 0 <= j < env.ws.Length ==> !env.ws[j].empty
    requires NoFlush(env, mem, bufferLength)
    requires env.Valid(mem) && pf.Valid()
    modifies mem, pf, env`hand, env.ws
    ensures panic == (old(mem.At(env.dir, va / PAGE_SIZE)) == EMPTY
                      && old(pf.Lookup(env.id, va / PAGE_SIZE)) == None && va < USTACKBOTTOM)
    ensures pf.Valid() && (old(pf.NoLeak()) ==> pf.NoLeak())
    ensures !panic ==> lastIDX < env.ws.Length && env.Valid(mem) && env.hand == After(env.ws.Length, lastIDX, 1)
    ensures !panic ==> env.ws[..] == WithPage(old(env.ws[..]), lastIDX, va)
    ensures !panic ==> mem.dirs == old(mem.dirs)
    ensures !panic ==> VictimReplaced(env, mem, lastIDX, va / PAGE_SIZE) && BroughtIn(env, mem, pf, va / PAGE_SIZE, loaded, false)
  {
    hide FramePool.Ok, M.Structured, Holders, EntryAt, Resident, IsVictim, FinalPerms, Sound, Complete, Private, SameElsewhere, Replaced;
    ghost var page, slots := va / PAGE_SIZE, env.ws[..];
    lastIDX := Evict(env, mem, page);
    ghost var emptied, evicted := env.ws[..], mem.tables;
    panic, loaded := BringIn(env, mem, pf, va);
    if panic {
      return;
    }
    env.SetEntry(lastIDX, va);
    if lastIDX == env.ws.Length - 1 {
      env.hand := 0;
    } else {
      env.hand := lastIDX + 1;
    }
    assert WithPage(slots[lastIDX := Slot(0, true, 0)], lastIDX, va) == WithPage(slots, lastIDX, va);
    ResidentJoins(mem.n, emptied, evicted, mem.tables, mem.dirs, env.dir, mem.home, mem.startAdd, lastIDX, va);
    ReplacedThenLoaded(old(mem.tables), evicted, mem.tables, mem.dirs, env.dir, PagesOf(slots),
                       FinalPerms(PermsOf(slots, old(mem.tables), mem.dirs, env.dir), old(env.hand), lastIDX), lastIDX, page);
  }

  /** The second half of the replacement path: the page comes back from a buffer, or from the page file. */
  method BringIn(env: Env, mem: M.Memory, pf: PageFile, va: uint32) returns (panic: bool, loaded: Option<Page>)
    requires IsPage(mem.dirs, env.dir, va / PAGE_SIZE) && va < USTACKTOP
    requires HasTable(mem.dirs, env.dir, va / PAGE_SIZE) && mem.Reachable(env.dir, va / PAGE_SIZE)
    requires Present !in mem.At(env.dir, va / PAGE_SIZE).perm
    requires mem.At(env.dir, va / PAGE_SIZE) == EMPTY ==> FramePool.CanAllocate(mem.Frames())
    requires env.Valid(mem) && pf.Valid()
    modifies mem, pf
    ensures mem.Valid() && mem.dirs == old(mem.dirs) && mem.home == old(mem.home) && mem.startAdd == old(mem.startAdd)
    ensures SameElsewhere(old(mem.tables), mem.dirs, mem.tables, mem.dirs, env.dir, va / PAGE_SIZE)
    ensures Private(mem.n, mem.tables, mem.dirs, env.dir, mem.home, mem.startAdd, va / PAGE_SIZE)
    ensures HoldersKept(env.ws[..], old(mem.tables), mem.tables, mem.dirs, env.dir)
    ensures pf.Valid() && (old(pf.NoLeak()) ==> pf.NoLeak())
    ensures panic == (old(mem.At(env.dir, va / PAGE_SIZE)) == EMPTY
                      && old(pf.Lookup(env.id, va / PAGE_SIZE)) == None && va < USTACKBOTTOM)
    ensures BroughtIn(env, mem, pf, va / PAGE_SIZE, loaded, panic)
    ensures var e := old(mem.At(env.dir, va / PAGE_SIZE));
      e != EMPTY ==> e.frame < |old(mem.isBuffered)| && mem.Frames() == FramePool.Unvictimised(old(mem.Frames()), e)
                     && mem.At(env.dir, va / PAGE_SIZE) == Entry(e.frame, e.perm + {Present} - {Buffered})
  {
    hide FramePool.Ok, M.Structured, Holders, EntryAt, Resident, Sound, Complete, Private, SameElsewhere, HoldersKept, FramePool.Stray,
      RoundUp;
    StackBottom();
    ghost var page, before, s := va / PAGE_SIZE, mem.tables, mem.Frames();
    panic, loaded := false, None;
    mem.AbsentEntry(env.dir, page);
    var perm := mem.GetPagePermissions(env.dir, va);
    if Buffered in perm {
      mem.BufferedFrame(env.dir, page);
      mem.RestorePage(env.dir, va);
      SameReferences(mem.n, s, mem.Frames(), env.ws[..], before, mem.tables, mem.dirs, env.dir, mem.home, mem.startAdd);
      RestoredIsPrivate(mem.n, s, mem.Frames(), before, mem.tables, mem.dirs, env.dir, mem.home, mem.startAdd, page);
    } else {
      assert USER_PERM + {Present} == USER_PERM;
      panic, loaded := Load(env, mem, pf, va, USER_PERM, USTACKBOTTOM, false);
    }
  }

  /** A buffered page that came back is private again. */
  lemma RestoredIsPrivate(n: nat, s: FramePool.Pool, s': FramePool.Pool, before: Tables, tables: Tables, dirs: Dirs, dir: nat,
                          home: map<nat, nat>, startAdd: int, page: nat)
    requires FramePool.Ok(n, s, before) && FramePool.Ok(n, s', tables) && s'.refs == s.refs && s'.boot == s.boot
    requires EntryAt(tables, dirs, dir, page).frame == EntryAt(before, dirs, dir, page).frame < n
    requires |Holders(before, EntryAt(before, dirs, dir, page).frame)| == 1
    requires M.Reaches(dirs, home, startAdd, dir, page) && Present in EntryAt(tables, dirs, dir, page).perm
    ensures Private(n, tables, dirs, dir, home, startAdd, page)
  {
    hide EntryAt, Holders, FramePool.Ok;
    FramePool.HolderCount(n, s, before, EntryAt(before, dirs, dir, page).frame);
    FramePool.HolderCount(n, s', tables, EntryAt(before, dirs, dir, page).frame);
  }

  lemma ReplacedThenLoaded(before: Tables, evicted: Tables, tables: Tables, dirs: Dirs, dir: nat, pages: seq<nat>, ps: Perms,
                           v: nat, page: nat)
    requires Replaced(before, evicted, dirs, dir, pages, ps, v, page) && SameElsewhere(evicted, dirs, tables, dirs, dir, page)
    requires page !in pages && page < USER_TOP_PAGE && forall i :: 0 <= i < |pages| ==> IsPage(dirs, dir, pages[i])
    ensures Replaced(before, tables, dirs, dir, pages, ps, v, page)
  {
    hide EntryAt;
  }

  /** env_page_ws_get_size */
  method GetSize(env: Env) returns (counter: nat)
    ensures counter <= env.ws.Length && (counter < env.ws.Length <==> exists j :: 0 <= j < env.ws.Length && env.ws[j].empty)
  {
    counter := 0;
    var i := 0;
    while i < env.ws.Length
      invariant 0 <= i <= env.ws.Length && counter <= i
      invariant counter < i <==> exists j :: 0 <= j < i && env.ws[j].empty
    {
      if !env.ws[i].empty {
        counter := counter + 1;
      }
      i := i + 1;
    }
  }

  ghost predicate HasRoom(env: Env)
    reads env, env.ws
  {
    exists j :: 0 <= j < env.ws.Length && env.ws[j].empty
  }

  /**
   * What a fault that does not panic does to the working set: the faulting page, now present, takes the first empty
   * slot, or when there is none that of the victim; the hand moves on.
   */
  twostate predicate Handled(env: Env, mem: M.Memory, va: uint32, slot: nat)
    reads env, env.ws, mem
  {
    && slot < env.ws.Length && Present in mem.At(env.dir, va / PAGE_SIZE).perm
    && env.ws[..] == WithPage(old(env.ws[..]), slot, va)
    && if old(HasRoom(env)) then
         FirstEmpty(old(env.ws[..]), slot) && env.hand == After(env.ws.Length, old(env.hand), 1)
       else
         && IsVictim(PermsOf(old(env.ws[..]), old(mem.tables), mem.dirs, env.dir), old(env.hand), slot)
         && env.hand == After(env.ws.Length, slot, 1)
  }

  /** The page file has every page it had, unchanged, and at most the page of va besides, if that is in the stack. */
  ghost predicate OnlyStackAdded(store: Store, store': Store, id: nat, va: uint32) {
    && (forall key :: key in store ==> key in store' && store'[key] == store[key])
    && (forall key :: key in store' && key !in store ==> key == (id, va / PAGE_SIZE) && va >= USER_HEAP_MAX)
  }

  lemma StackAdded(dirs: DiskTables, disk: seq<Page>, dirs': DiskTables, disk': seq<Page>, id: nat, va: uint32)
    requires forall e: nat, p: nat :: Content(dirs', disk', e, p) == Content(dirs, disk, e, p)
                || (e == id && p == va / PAGE_SIZE && va >= USER_HEAP_MAX && Content(dirs, disk, e, p) == None)
    ensures OnlyStackAdded(Mapping(dirs, disk), Mapping(dirs', disk'), id, va)
  {
    hide Content;
  }

  /**
   * page_fault_handler. The frame invariant survives, unless the page is buffered and the working set has room: then
   * map_frame overwrites the entry, and the frame the page waited in keeps a reference no entry accounts for.
   */
  method PageFaultHandler(env: Env, mem: M.Memory, pf: PageFile, va: uint32, bufferLength: nat)
    returns (panic: bool, ghost slot: nat)
    requires IsPage(mem.dirs, env.dir, va / PAGE_SIZE) && va < USTACKTOP
    requires HasTable(mem.dirs, env.dir, va / PAGE_SIZE) && mem.Reachable(env.dir, va / PAGE_SIZE)
    requires Present !in mem.At(env.dir, va / PAGE_SIZE).perm && env.hand < env.ws.Length
    requires HasRoom(env) || mem.At(env.dir, va / PAGE_SIZE) == EMPTY ==> FramePool.CanAllocate(mem.Frames())
    requires HasRoom(env) || NoFlush(env, mem, bufferLength)
    requires env.Valid(mem) && pf.Valid()
    modifies mem, pf, env`hand, env.ws
    ensures pf.Valid() && (old(pf.NoLeak()) ==> pf.NoLeak())
    ensures panic ==> old(pf.Lookup(env.id, va / PAGE_SIZE)) == None && va < USTACKBOTTOM
    ensures !panic ==> env.Resides(mem) && mem.Tallied() && Handled(env, mem, va, slot)
    ensures !panic ==> (mem.Valid() <==> !old(HasRoom(env)) || old(mem.At(env.dir, va / PAGE_SIZE)) == EMPTY)
    ensures !panic && !mem.Valid() ==> FramePool.Stray(mem.n, mem.Frames(), mem.tables)
    ensures !panic ==> OnlyStackAdded(old(pf.View()), pf.View(), env.id, va)
  {
    hide FramePool.Ok, FramePool.Stray, M.Structured, Holders, EntryAt, Resident, Sound, Complete, Content, Mapping, OnlyStackAdded,
      SameElsewhere, Replaced, IsVictim, FinalPerms, RoundUp;
    StackBottom();
    var size := GetSize(env);
    if size < env.ws.Length {
      var loaded;
      ghost var i;
      panic, loaded, i := FaultWithRoom(env, mem, pf, va);
      slot := i;
    } else {
      var loaded;
      panic, loaded, slot := FaultWhenFull(env, mem, pf, va, bufferLength);
      if !panic { mem.ValidIsTallied(); }
    }
    if !panic {
      forall e: nat, p: nat
        ensures Content(pf.dirs, pf.disk, e, p) == Content(old(pf.dirs), old(pf.disk), e, p)
             || (e == env.id && p == va / PAGE_SIZE && va >= USER_HEAP_MAX && Content(old(pf.dirs), old(pf.disk), e, p) == None)
      {
        assert pf.Lookup(e, p) == Content(pf.dirs, pf.disk, e, p);
        assert old(pf.Lookup(e, p)) == Content(old(pf.dirs), old(pf.disk), e, p);
      }
      StackAdded(old(pf.dirs), old(pf.disk), pf.dirs, pf.disk, env.id, va);
    }
  }
}

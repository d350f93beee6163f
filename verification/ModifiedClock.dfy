/** The modified-clock victim search of page_fault_handler. */
module ModifiedClock {
  import opened Layout
  import opened PageTables
  import opened WorkingSet
  import FramePool
  import M = Memory

  type Perms = seq<set<Perm>>

  // ---- what the search is meant to find ----

  /** The (used, modified) pair of a page, read as a number. */
  function Class(perm: set<Perm>): nat {
    (if Used in perm then 2 else 0) + (if Modified in perm then 1 else 0)
  }

  /** How many steps the hand at index from is away from index i. */
  function Distance(n: nat, from: nat, i: nat): int {
    if i >= from then i - from else i - from + n
  }

  /** Of the pages in the least class, the first the hand meets. */
  ghost predicate IsVictim(ps: Perms, hand: nat, v: nat) {
    v < |ps| && hand < |ps|
    && forall i :: 0 <= i < |ps| ==>
         Class(ps[v]) < Class(ps[i])
         || (Class(ps[v]) == Class(ps[i]) && Distance(|ps|, hand, v) <= Distance(|ps|, hand, i))
  }

  /** The second pass took the used bit of page i on its way to the victim. */
  ghost predicate Passed(ps: Perms, hand: nat, v: nat, i: nat)
    requires v < |ps|
  {
    match Class(ps[v])
    case 0 => false
    case 1 => Distance(|ps|, hand, i) < Distance(|ps|, hand, v)
    case _ => true
  }

  function Swept(perm: set<Perm>, passed: bool): set<Perm> {
    if passed then perm - {Used} else perm
  }

  /** How many entries the search looks at. */
  function Inspections(ps: Perms, hand: nat, v: nat): int
    requires v < |ps|
  {
    Distance(|ps|, hand, v) + 1
    + if Class(ps[v]) == 0 then 0 else if Class(ps[v]) == 1 then |ps| else if Class(ps[v]) == 2 then 2 * |ps| else 3 * |ps|
  }

  lemma SearchIsBounded(ps: Perms, hand: nat, v: nat)
    requires IsVictim(ps, hand, v)
    ensures 1 <= Inspections(ps, hand, v) <= 3 * |ps| + 1
  {
    var c := Class(ps[v]);
    assert c <= 3 && Class(ps[hand]) <= 3 && Distance(|ps|, hand, hand) == 0;
    assert 0 <= Distance(|ps|, hand, v) < |ps|;
    assert c == 3 ==> Distance(|ps|, hand, v) == 0;
    assert c == 0 || c == 1 || c == 2 || c == 3;
  }

  /** There is always exactly one victim. */
  lemma VictimIsUnique(ps: Perms, hand: nat, v: nat, w: nat)
    requires IsVictim(ps, hand, v) && IsVictim(ps, hand, w)
    ensures v == w
  {
    assert Class(ps[v]) < Class(ps[w]) || Distance(|ps|, hand, v) <= Distance(|ps|, hand, w);
    assert Class(ps[w]) < Class(ps[v]) || Distance(|ps|, hand, w) <= Distance(|ps|, hand, v);
  }

  // ---- the working set against the page tables ----

  /** The entries of the given pages have the frames they had and the permissions ps; all others are as before. */
  ghost predicate OnlyPerms(start: Tables, tables: Tables, dirs: Dirs, dir: nat, pages: seq<nat>, ps: Perms) {
    && |ps| == |pages|
    && (forall i :: 0 <= i < |pages| ==>
          EntryAt(tables, dirs, dir, pages[i]) == Entry(EntryAt(start, dirs, dir, pages[i]).frame, ps[i]))
    && (forall d, p :: IsPage(dirs, d, p) && !(d == dir && p in pages) ==>
          EntryAt(tables, dirs, d, p) == EntryAt(start, dirs, d, p))
  }

  lemma NoPermsChanged(tables: Tables, dirs: Dirs, dir: nat, pages: seq<nat>, ps: Perms)
    requires |ps| == |pages| && forall i :: 0 <= i < |pages| ==> EntryAt(tables, dirs, dir, pages[i]).perm == ps[i]
    ensures OnlyPerms(tables, tables, dirs, dir, pages, ps)
  {
    hide EntryAt;
  }

  lemma PermChanged(start: Tables, before: Tables, tables: Tables, dirs: Dirs, dir: nat, pages: seq<nat>, ps: Perms,
                    i: nat, perm: set<Perm>)
    requires OnlyPerms(start, before, dirs, dir, pages, ps) && i < |pages|
    requires forall j, k :: 0 <= j < k < |pages| ==> pages[j] != pages[k]
    requires forall j :: 0 <= j < |pages| ==> IsPage(dirs, dir, pages[j]) && pages[j] < USER_TOP_PAGE
    requires SameElsewhere(before, dirs, tables, dirs, dir, pages[i])
    requires EntryAt(tables, dirs, dir, pages[i]) == Entry(EntryAt(before, dirs, dir, pages[i]).frame, perm)
    ensures OnlyPerms(start, tables, dirs, dir, pages, ps[i := perm])
  {
    hide EntryAt;
    forall d, p | IsPage(dirs, d, p) && !(d == dir && p in pages)
      ensures EntryAt(tables, dirs, d, p) == EntryAt(start, dirs, d, p)
    {
      assert p != pages[i] || d != dir;
    }
  }

  /** Every slot is taken, the pages in them have permissions ps, and no other entry has moved since start. */
  ghost predicate Searching(n: nat, slots: seq<Slot>, start: Tables, tables: Tables, dirs: Dirs, dir: nat,
                            home: map<nat, nat>, startAdd: int, ps: Perms) {
    && Resident(n, slots, tables, dirs, dir, home, startAdd)
    && (forall i :: 0 <= i < |slots| ==> !slots[i].empty)
    && OnlyPerms(start, tables, dirs, dir, PagesOf(slots), ps)
  }

  lemma SearchingSlot(n: nat, slots: seq<Slot>, start: Tables, tables: Tables, dirs: Dirs, dir: nat,
                      home: map<nat, nat>, startAdd: int, ps: Perms, i: nat)
    requires Searching(n, slots, start, tables, dirs, dir, home, startAdd, ps) && i < |slots|
    ensures |ps| == |slots| && var page := slots[i].va / PAGE_SIZE;
      && EntryAt(tables, dirs, dir, page).perm == ps[i] && Present in ps[i]
      && page < USER_TOP_PAGE && IsPage(dirs, dir, page) && !M.IsHeapPage(page)
      && M.Reaches(dirs, home, startAdd, dir, page)
  {
    hide EntryAt, Holders;
    assert PagesOf(slots)[i] == slots[i].va / PAGE_SIZE;
  }

  /** Changing the bits of one working-set page, its present bit apart, keeps the search going. */
  lemma StillSearching(n: nat, s: FramePool.Pool, slots: seq<Slot>, start: Tables, before: Tables, tables: Tables,
                       dirs: Dirs, dir: nat, home: map<nat, nat>, startAdd: int, ps: Perms, i: nat, perm: set<Perm>)
    requires Searching(n, slots, start, before, dirs, dir, home, startAdd, ps) && i < |slots|
    requires FramePool.Ok(n, s, before) && FramePool.Ok(n, s, tables)
    requires SameElsewhere(before, dirs, tables, dirs, dir, slots[i].va / PAGE_SIZE)
    requires EntryAt(tables, dirs, dir, slots[i].va / PAGE_SIZE)
          == Entry(EntryAt(before, dirs, dir, slots[i].va / PAGE_SIZE).frame, perm)
    requires Present in perm
    ensures |ps| == |slots| && Searching(n, slots, start, tables, dirs, dir, home, startAdd, ps[i := perm])
  {
    hide EntryAt, FramePool.Ok, Holders;
    var pages := PagesOf(slots);
    assert forall j :: 0 <= j < |slots| ==> pages[j] == slots[j].va / PAGE_SIZE;
    assert forall j, k :: 0 <= j < k < |pages| ==> pages[j] != pages[k];
    PermChanged(start, before, tables, dirs, dir, pages, ps, i, perm);
    forall j | 0 <= j < |slots| ensures Private(n, tables, dirs, dir, home, startAdd, slots[j].va / PAGE_SIZE) {
      var f := EntryAt(before, dirs, dir, slots[j].va / PAGE_SIZE).frame;
      FramePool.HolderCount(n, s, before, f);
      FramePool.HolderCount(n, s, tables, f);
      assert IsPage(dirs, dir, slots[j].va / PAGE_SIZE);
    }
  }

  ghost predicate InSearch(env: Env, mem: M.Memory, start: Tables, ps: Perms)
    reads env.ws, mem
  {
    mem.Valid() && |ps| == env.ws.Length
    && Searching(mem.n, env.ws[..], start, mem.tables, mem.dirs, env.dir, mem.home, mem.startAdd, ps)
  }

  lemma InSearchSize(env: Env, mem: M.Memory, start: Tables, ps: Perms)
    requires InSearch(env, mem, start, ps)
    ensures |ps| == env.ws.Length
  {
  }

  /** pt_get_page_permissions of the page in slot i. */
  method PagePermissions(env: Env, mem: M.Memory, i: nat, ghost start: Tables, ghost ps: Perms) returns (perm: set<Perm>)
    requires InSearch(env, mem, start, ps) && i < env.ws.Length
    ensures perm == ps[i]
  {
    hide FramePool.Ok, M.Structured, Searching, EntryAt;
    SearchingSlot(mem.n, env.ws[..], start, mem.tables, mem.dirs, env.dir, mem.home, mem.startAdd, ps, i);
    perm := mem.GetPagePermissions(env.dir, env.ws[i].va);
  }

  /** pt_set_page_permissions on the page in slot i, as the search sees it. */
  method TakeUsedBit(env: Env, mem: M.Memory, i: nat, ghost start: Tables, ghost ps: Perms)
    requires InSearch(env, mem, start, ps) && i < env.ws.Length
    modifies mem`tables
    ensures InSearch(env, mem, start, ps[i := ps[i] - {Used}]) && mem.tables.Keys == old(mem.tables.Keys)
  {
    hide FramePool.Ok, M.Structured, Searching, EntryAt;
    ghost var before := mem.tables;
    SearchingSlot(mem.n, env.ws[..], start, before, mem.dirs, env.dir, mem.home, mem.startAdd, ps, i);
    mem.PresentFrame(env.dir, env.ws[i].va / PAGE_SIZE);
    mem.ValidIsTallied();
    mem.SetPagePermissions(env.dir, env.ws[i].va, {}, {Used});
    assert ps[i] + {} - {Used} == ps[i] - {Used};
    StillSearching(mem.n, mem.Frames(), env.ws[..], start, before, mem.tables, mem.dirs, env.dir, mem.home, mem.startAdd, ps, i, ps[i] - {Used});
  }

  /** The inner loop of the search: take used bits until a page without one comes up. */
  method SecondPass(env: Env, mem: M.Memory, ghost start: Tables, ghost ps: Perms)
    returns (found: bool, victim: uint32, lastIDX: nat, ghost k: nat)
    requires InSearch(env, mem, start, ps) && env.hand < env.ws.Length
    modifies env`hand, mem`tables
    ensures mem.tables.Keys == old(mem.tables.Keys) && |ps| == env.ws.Length
    ensures found ==>
      && k < |ps| && lastIDX == After(|ps|, old(env.hand), k) && victim == env.ws[lastIDX].va && Used !in ps[lastIDX]
      && UsedBefore(ps, old(env.hand), k) && env.hand == After(|ps|, lastIDX, 1)
      && InSearch(env, mem, start, SweptBefore(ps, old(env.hand), k))
    ensures !found ==>
      && UsedBefore(ps, old(env.hand), |ps|) && env.hand == old(env.hand)
      && InSearch(env, mem, start, SweptBefore(ps, old(env.hand), |ps|))
  {
    hide InSearch, SweptBefore, UsedBefore;
    InSearchSize(env, mem, start, ps);
    var fp := env.hand;
    found, victim, lastIDX, k := false, 0, 0, 0;
    NothingSwept(ps, env.hand);
    while !found
      invariant !found && k < |ps| && env.hand == After(|ps|, fp, k) && mem.tables.Keys == old(mem.tables.Keys)
      invariant UsedBefore(ps, fp, k) && InSearch(env, mem, start, SweptBefore(ps, fp, k))
      decreases |ps| - k
    {
      var va := env.ws[env.hand].va;
      ghost var now := SweptBefore(ps, fp, k);
      SweepStep(ps, fp, k);
      var perm := PagePermissions(env, mem, env.hand, start, now);
      if Used !in perm {
        victim, lastIDX := va, env.hand;
        env.Advance();
        found := true;
        break;
      }
      TakeUsedBit(env, mem, env.hand, start, now);
      env.Advance();
      k := k + 1;
      if env.hand == fp && !found {
        break;
      }
    }
  }

  /** The victim search of page_fault_handler; it leaves the victim's slot empty. */
  method FindVictim(env: Env, mem: M.Memory, ghost ps: Perms) returns (victim: uint32, lastIDX: nat, ghost steps: nat)
    requires InSearch(env, mem, mem.tables, ps) && env.hand < env.ws.Length
    modifies env`hand, env.ws, mem`tables
    ensures lastIDX < |ps| == env.ws.Length && IsVictim(ps, old(env.hand), lastIDX)
    ensures steps == Inspections(ps, old(env.hand), lastIDX)
    ensures victim == old(env.ws[..])[lastIDX].va && env.ws[..] == old(env.ws[..])[lastIDX := Slot(0, true, 0)]
    ensures env.hand == After(env.ws.Length, lastIDX, 1)
    ensures mem.Valid() && mem.tables.Keys == old(mem.tables.Keys)
    ensures Searching(mem.n, old(env.ws[..]), old(mem.tables), mem.tables, mem.dirs, env.dir, mem.home, mem.startAdd,
                      FinalPerms(ps, old(env.hand), lastIDX))
  {
    hide InSearch, Searching, SweptBefore, UsedBefore, Behind, IsVictim, FinalPerms, Inspections, FramePool.Ok, M.Structured;
    InSearchSize(env, mem, mem.tables, ps);
    ghost var start, n, k, twice := mem.tables, env.ws.Length, 0, false;
    ghost var now := ps;
    var fp := env.hand;
    var F1, F2 := false, false;
    victim, lastIDX, steps := 0, 0, 0;
    NothingBehind(ps, fp);
    while !F1 && !F2
      invariant !F1 && !F2 && k < n && env.hand == After(n, fp, k) && env.ws[..] == old(env.ws[..])
      invariant mem.tables.Keys == old(mem.tables.Keys) && InSearch(env, mem, start, now) && Behind(ps, fp, k, twice, now)
      invariant steps == if twice then 2 * n + k else k
      decreases !twice, n - k
    {
      var va := env.ws[env.hand].va;
      ghost var at := env.hand;
      var perm := PagePermissions(env, mem, env.hand, start, now);
      steps := steps + 1;
      FirstPassStep(ps, fp, k, twice, now);
      if Used !in perm && Modified !in perm {
        victim, lastIDX := va, env.hand;
        SearchDone(env, mem, start, now);
        env.ClearEntry(lastIDX);
        env.Advance();
        F2 := true;
        break;
      }
      env.Advance();
      k := k + 1;
      if env.hand == fp && !F2 {
        ghost var k2;
        SecondPassFinds(ps, fp, twice, now);
        F1, victim, lastIDX, k2 := SecondPass(env, mem, start, now);
        if F1 {
          SecondPassVictim(ps, fp, twice, now, k2);
          steps := steps + k2 + 1;
          SearchDone(env, mem, start, SweptBefore(now, fp, k2));
          env.ClearEntry(lastIDX);
          break;
        } else {
          SecondPassSwept(ps, fp, twice, now);
          steps := steps + n;
          now, twice, k := SweptBefore(now, fp, |ps|), true, 0;
        }
      }
    }
  }

  lemma SearchDone(env: Env, mem: M.Memory, start: Tables, ps: Perms)
    requires InSearch(env, mem, start, ps)
    ensures mem.Valid() && Searching(mem.n, env.ws[..], start, mem.tables, mem.dirs, env.dir, mem.home, mem.startAdd, ps)
  {
  }

  /** The permissions the search leaves behind. */
  ghost function FinalPerms(ps: Perms, hand: nat, v: nat): (r: Perms)
    requires v < |ps|
    ensures |r| == |ps|
  {
    seq(|ps|, i requires 0 <= i < |ps| => Swept(ps[i], Passed(ps, hand, v, i)))
  }

  /**
   * The search takes nothing but used bits: none when the victim's page was neither used nor modified, those the hand
   * passed when it was only modified, and all of them when it was used.
   */
  lemma BitsTaken(ps: Perms, hand: nat, v: nat, i: nat)
    requires v < |ps| && i < |ps|
    ensures forall b :: b != Used ==> (b in FinalPerms(ps, hand, v)[i] <==> b in ps[i])
    ensures Used in FinalPerms(ps, hand, v)[i] <==>
      && Used in ps[i] && Used !in ps[v]
      && (Modified in ps[v] ==> Distance(|ps|, hand, i) >= Distance(|ps|, hand, v))
  {
    assert Class(ps[v]) == 0 || Class(ps[v]) == 1 || Class(ps[v]) == 2 || Class(ps[v]) == 3;
    assert FinalPerms(ps, hand, v)[i] == Swept(ps[i], Passed(ps, hand, v, i));
  }

  /**
   * Where the outer loop stands after k pages: none of them was clean and unused; the second time
   * around every used bit has been taken and now holds what is left of the permissions.
   */
  ghost predicate Behind(ps: Perms, hand: nat, k: nat, twice: bool, now: Perms) {
    && |now| == |ps|
    && (forall i :: 0 <= i < |ps| && Distance(|ps|, hand, i) < k ==> Used in now[i] || Modified in now[i])
    && (twice ==> UsedBefore(ps, hand, |ps|) && now == SweptBefore(ps, hand, |ps|))
    && (!twice ==> now == ps)
  }

  lemma NothingBehind(ps: Perms, hand: nat)
    requires hand < |ps|
    ensures Behind(ps, hand, 0, false, ps)
  {
  }

  lemma FirstPassStep(ps: Perms, hand: nat, k: nat, twice: bool, now: Perms)
    requires hand < |ps| && k < |ps| && Behind(ps, hand, k, twice, now)
    ensures var i := After(|ps|, hand, k);
      && i < |ps| == |now| && After(|ps|, i, 1) == After(|ps|, hand, k + 1) && (After(|ps|, i, 1) == hand <==> k + 1 == |ps|)
      && (Used in now[i] || Modified in now[i] ==> Behind(ps, hand, k + 1, twice, now))
      && (Used !in now[i] && Modified !in now[i] ==>
            IsVictim(ps, hand, i) && now == FinalPerms(ps, hand, i)
            && Inspections(ps, hand, i) == (if twice then 2 * |ps| + k else k) + 1)
  {
    var i := After(|ps|, hand, k);
    assert Distance(|ps|, hand, i) == k;
    if Used !in now[i] && Modified !in now[i] {
      assert Class(ps[i]) == if twice then 2 else 0;
      assert now == FinalPerms(ps, hand, i);
    }
  }

  lemma SecondPassFinds(ps: Perms, hand: nat, twice: bool, now: Perms)
    requires hand < |ps| == |now| && (twice ==> now == SweptBefore(ps, hand, |ps|))
    ensures twice ==> !UsedBefore(now, hand, |now|)
  {
    assert Distance(|ps|, hand, hand) == 0;
  }

  lemma SecondPassVictim(ps: Perms, hand: nat, twice: bool, now: Perms, k: nat)
    requires hand < |ps| && k < |ps| && Behind(ps, hand, |ps|, twice, now)
    requires UsedBefore(now, hand, k) && Used !in now[After(|ps|, hand, k)]
    ensures var i := After(|ps|, hand, k);
      && i < |ps| && IsVictim(ps, hand, i) && SweptBefore(now, hand, k) == FinalPerms(ps, hand, i)
      && Inspections(ps, hand, i) == (if twice then 3 * |ps| else |ps|) + k + 1
  {
    var i := After(|ps|, hand, k);
    assert Distance(|ps|, hand, i) == k && Distance(|ps|, hand, hand) == 0;
    if twice {
      assert k == 0;
      assert Class(ps[i]) == 3;
    } else {
      assert Class(ps[i]) == 1;
    }
    assert SweptBefore(now, hand, k) == FinalPerms(ps, hand, i);
  }

  lemma SecondPassSwept(ps: Perms, hand: nat, twice: bool, now: Perms)
    requires hand < |ps| && Behind(ps, hand, |ps|, twice, now) && !twice && UsedBefore(now, hand, |now|)
    ensures Behind(ps, hand, 0, true, SweptBefore(now, hand, |ps|))
  {
  }

  /** The first k pages from the hand on have their used bit set. */
  ghost predicate UsedBefore(ps: Perms, hand: nat, k: int) {
    forall i :: 0 <= i < |ps| && Distance(|ps|, hand, i) < k ==> Used in ps[i]
  }

  /** The permissions after the sweep has passed the first k pages from the hand on. */
  ghost function SweptBefore(ps: Perms, hand: nat, k: int): (r: Perms)
    ensures |r| == |ps|
    ensures forall i :: 0 <= i < |ps| ==> r[i] == Swept(ps[i], Distance(|ps|, hand, i) < k)
  {
    seq(|ps|, i requires 0 <= i < |ps| => Swept(ps[i], Distance(|ps|, hand, i) < k))
  }

  lemma NothingSwept(ps: Perms, hand: nat)
    requires hand < |ps|
    ensures SweptBefore(ps, hand, 0) == ps && UsedBefore(ps, hand, 0)
  {
  }

  lemma SweepStep(ps: Perms, hand: nat, k: nat)
    requires hand < |ps| && k < |ps|
    ensures var i := After(|ps|, hand, k);
      && i < |ps| && |SweptBefore(ps, hand, k)| == |ps| && SweptBefore(ps, hand, k)[i] == ps[i]
      && SweptBefore(ps, hand, k)[i := ps[i] - {Used}] == SweptBefore(ps, hand, k + 1)
      && (UsedBefore(ps, hand, k) && Used in ps[i] ==> UsedBefore(ps, hand, k + 1))
      && After(|ps|, i, 1) == After(|ps|, hand, k + 1) && (After(|ps|, i, 1) == hand <==> k + 1 == |ps|)
  {
  }
}

/**
 * The frames_info array and the two frame lists of kern/memory_manager.c as values: the counting
 * invariant that ties them to the page tables, and how each primitive step keeps it.
 */
module FramePool {
  import opened Layout
  import opened Lists
  import opened PageTables

  /**
   * refs and buffered are the fields of frames_info; free and modified are the two lists, first
   * element first. boot[f] is the reference initialize_paging gives the frames it keeps back, and
   * inHand holds the frames allocate_frame has handed out that are not yet mapped.
   */
  datatype Pool = Pool(refs: seq<nat>, buffered: seq<bool>, free: seq<nat>, modified: seq<nat>,
                       boot: seq<nat>, inHand: set<nat>)

  ghost predicate Sized(n: nat, s: Pool) {
    |s.refs| == n && |s.buffered| == n && |s.boot| == n
  }

  /** references counts the page-table entries that hold the frame. */
  ghost predicate Counted(n: nat, s: Pool, tables: Tables)
    requires Sized(n, s)
  {
    forall f :: 0 <= f < n ==> s.refs[f] == s.boot[f] + |Holders(tables, f)|
  }

  /** A frame without references is free once or in a caller's hands; a listed frame with some is buffered. */
  ghost predicate Listed(n: nat, s: Pool)
    requires Sized(n, s)
  {
    && NoDuplicates(s.free) && NoDuplicates(s.modified)
    && (forall f :: f in s.free ==> f < n && f !in s.modified && f !in s.inHand && (!s.buffered[f] ==> s.refs[f] == 0))
    && (forall f :: f in s.modified ==> f < n && f !in s.inHand && s.buffered[f])
    && (forall f :: f in s.inHand ==> f < n && s.refs[f] == 0 && !s.buffered[f])
    && (forall f :: 0 <= f < n && s.refs[f] == 0 ==> !s.buffered[f] && (f in s.free || f in s.inHand))
    && (forall f :: 0 <= f < n && s.buffered[f] ==> f in s.free || f in s.modified)
  }

  /** An entry is present or buffered; the buffered ones are exactly those of buffered frames, listed by their modified bit. */
  ghost predicate EntryFlagged(n: nat, s: Pool, e: Entry)
    requires Sized(n, s)
  {
    e != EMPTY ==>
      && e.frame < n && (Present in e.perm <==> Buffered !in e.perm)
      && (Buffered in e.perm <==> s.buffered[e.frame])
      && (Buffered in e.perm ==> (Modified in e.perm <==> e.frame in s.modified))
  }

  ghost predicate Flagged(n: nat, s: Pool, tables: Tables)
    requires Sized(n, s)
  {
    && (forall t, i :: t in tables && 0 <= i < |tables[t]| ==> EntryFlagged(n, s, tables[t][i]))
    && (forall f :: 0 <= f < n && s.buffered[f] ==> |Holders(tables, f)| <= 1)
  }

  ghost predicate Ok(n: nat, s: Pool, tables: Tables) {
    Sized(n, s) && Counted(n, s, tables) && Listed(n, s) && Flagged(n, s, tables)
  }

  /** How many entries hold a frame is known from its references. */
  lemma HolderCount(n: nat, s: Pool, tables: Tables, f: nat)
    requires Ok(n, s, tables) && f < n
    ensures |s.refs| == n == |s.boot| && |Holders(tables, f)| == s.refs[f] - s.boot[f]
  {
    hide Holders;
  }

  /** No frame that a present entry maps is on the free list. */
  lemma MappedIsNotFree(n: nat, s: Pool, tables: Tables, t: nat, i: nat)
    requires Ok(n, s, tables) && t in tables && i < |tables[t]| && Present in tables[t][i].perm
    ensures tables[t][i].frame !in s.free && tables[t][i].frame !in s.modified && s.refs[tables[t][i].frame] >= 1
  {
    assert EntryFlagged(n, s, tables[t][i]);
    HolderCounts(tables, t, i);
  }

  /** allocate_frame finds a frame, and it is not a buffered one. */
  ghost predicate CanAllocate(s: Pool) {
    |s.free| > 0 && s.free[0] < |s.buffered| && !s.buffered[s.free[0]]
  }

  function Allocated(s: Pool): (s': Pool)
    requires |s.free| > 0 && s.free[0] < |s.refs| == |s.buffered|
  {
    var f := s.free[0];
    s.(refs := s.refs[f := 0], buffered := s.buffered[f := false], free := s.free[1..], inHand := s.inHand + {f})
  }

  lemma AllocateKeepsOk(n: nat, s: Pool, tables: Tables)
    requires Ok(n, s, tables) && CanAllocate(s)
    ensures Ok(n, Allocated(s), tables)
    ensures Allocated(s).refs == s.refs && Allocated(s).buffered == s.buffered
    ensures |s.refs| == n == |s.buffered| && s.free[0] < n && s.free[0] !in s.inHand && s.refs[s.free[0]] == 0 && |Holders(tables, s.free[0])| == 0
  {
    var f, s' := s.free[0], Allocated(s);
    assert f in s.free;
    assert s'.refs == s.refs && s'.buffered == s.buffered;
    assert forall g :: g in s.free <==> g == f || g in s'.free;
    assert f !in s'.free;
    assert Listed(n, s');
    forall t, i | t in tables && 0 <= i < |tables[t]| ensures EntryFlagged(n, s', tables[t][i]) {
      assert EntryFlagged(n, s, tables[t][i]);
    }
  }

  /** references++ for a frame that a new present entry maps. */
  function Mapped(s: Pool, f: nat): (s': Pool)
    requires f < |s.refs|
  {
    s.(refs := s.refs[f := s.refs[f] + 1], inHand := s.inHand - {f})
  }

  lemma MapKeepsOk(n: nat, s: Pool, tables: Tables, t: nat, i: nat, e: Entry)
    requires Ok(n, s, tables) && t in tables && i < |tables[t]| && tables[t][i] == EMPTY
    requires e.frame < n && Present in e.perm && Buffered !in e.perm
    requires e.frame in s.inHand || (s.refs[e.frame] > 0 && !s.buffered[e.frame])
    ensures Ok(n, Mapped(s, e.frame), Write(tables, t, i, e))
  {
    hide Holders;
    var s', tables' := Mapped(s, e.frame), Write(tables, t, i, e);
    forall f | 0 <= f < n
      ensures s'.refs[f] == s'.boot[f] + |Holders(tables', f)|
      ensures s'.buffered[f] ==> |Holders(tables', f)| <= 1
    {
      HoldersAfterWrite(tables, t, i, e, f);
    }
    assert Listed(n, s');
    forall t', i' | t' in tables' && 0 <= i' < |tables'[t']| ensures EntryFlagged(n, s', tables'[t'][i']) {
      assert t' != t || i' != i ==> tables'[t'][i'] == tables[t'][i'];
      assert EntryFlagged(n, s, tables[t'][i']);
    }
  }

  /** decrement_references for the frame of an entry that is cleared. */
  function Unmapped(s: Pool, f: nat): (s': Pool)
    requires f < |s.refs| == |s.buffered| && s.refs[f] > 0
  {
    if s.refs[f] == 1 then
      s.(refs := s.refs[f := 0], buffered := s.buffered[f := false], free := [f] + s.free)
    else
      s.(refs := s.refs[f := s.refs[f] - 1])
  }

  lemma UnmapKeepsOk(n: nat, s: Pool, tables: Tables, t: nat, i: nat)
    requires Ok(n, s, tables) && t in tables && i < |tables[t]| && Present in tables[t][i].perm
    ensures tables[t][i].frame < n && s.refs[tables[t][i].frame] > 0
    ensures Ok(n, Unmapped(s, tables[t][i].frame), Write(tables, t, i, EMPTY))
  {
    hide Holders;
    var e, tables' := tables[t][i], Write(tables, t, i, EMPTY);
    assert EntryFlagged(n, s, e);
    MappedIsNotFree(n, s, tables, t, i);
    var s' := Unmapped(s, e.frame);
    forall f | 0 <= f < n
      ensures s'.refs[f] == s'.boot[f] + |Holders(tables', f)|
      ensures s'.buffered[f] ==> |Holders(tables', f)| <= 1
    {
      HoldersAfterWrite(tables, t, i, EMPTY, f);
    }
    assert s'.buffered == s.buffered;
    assert forall g :: g in s'.free <==> g in s.free || (s.refs[e.frame] == 1 && g == e.frame);
    assert Listed(n, s');
    forall t', i' | t' in tables' && 0 <= i' < |tables'[t']| ensures EntryFlagged(n, s', tables'[t'][i']) {
      assert t' != t || i' != i ==> tables'[t'][i'] == tables[t'][i'];
      assert EntryFlagged(n, s, tables[t'][i']);
    }
  }

  /**
   * What a frame is worth when the invariant is lost: it still has a reference for every entry that holds it, so it
   * is not freed while one does.
   */
  ghost predicate AtLeast(n: nat, s: Pool, tables: Tables) {
    Sized(n, s) && forall f :: 0 <= f < n ==> s.refs[f] >= s.boot[f] + |Holders(tables, f)|
  }

  lemma OkIsAtLeast(n: nat, s: Pool, tables: Tables)
    requires Ok(n, s, tables)
    ensures AtLeast(n, s, tables)
  {
    hide Holders;
  }

  lemma UnmapKeepsAtLeast(n: nat, s: Pool, tables: Tables, t: nat, i: nat)
    requires AtLeast(n, s, tables) && t in tables && i < |tables[t]| && tables[t][i] != EMPTY && tables[t][i].frame < n
    ensures s.refs[tables[t][i].frame] > 0
    ensures AtLeast(n, Unmapped(s, tables[t][i].frame), Write(tables, t, i, EMPTY))
  {
    hide Holders;
    HolderCounts(tables, t, i);
    forall f: nat ensures |Holders(Write(tables, t, i, EMPTY), f)| + (if Holds(tables[t][i], f) then 1 else 0) == |Holders(tables, f)| {
      HoldersAfterWrite(tables, t, i, EMPTY, f);
    }
  }

  lemma MapKeepsAtLeast(n: nat, s: Pool, tables: Tables, t: nat, i: nat, e: Entry)
    requires AtLeast(n, s, tables) && t in tables && i < |tables[t]| && e.frame < n
    ensures AtLeast(n, Mapped(s, e.frame), Write(tables, t, i, e))
  {
    hide Holders;
    forall f: nat ensures |Holders(Write(tables, t, i, e), f)| <= |Holders(tables, f)| + if Holds(e, f) then 1 else 0 {
      HoldersAfterWrite(tables, t, i, e, f);
    }
  }

  lemma RepermKeepsAtLeast(n: nat, s: Pool, tables: Tables, t: nat, i: nat, perm: set<Perm>)
    requires AtLeast(n, s, tables) && t in tables && i < |tables[t]| && tables[t][i] != EMPTY
    ensures var e := Entry(tables[t][i].frame, perm);
      && AtLeast(n, s, Write(tables, t, i, e))
      && (e != EMPTY ==> forall f: nat :: |Holders(Write(tables, t, i, e), f)| == |Holders(tables, f)|)
  {
    hide Holders;
    var e := Entry(tables[t][i].frame, perm);
    forall f: nat
      ensures |Holders(Write(tables, t, i, e), f)| <= |Holders(tables, f)|
      ensures e != EMPTY ==> |Holders(Write(tables, t, i, e), f)| == |Holders(tables, f)|
    {
      HoldersAfterWrite(tables, t, i, e, f);
    }
  }

  /** That lasts up to the next allocate_frame, which clears the count of the frame at the head of the list, held or not. */
  lemma AllocateKeepsAtLeast(n: nat, s: Pool, tables: Tables)
    requires AtLeast(n, s, tables) && |s.free| > 0 && s.free[0] < n
    ensures AtLeast(n, Allocated(s), tables) <==> s.boot[s.free[0]] == 0 && |Holders(tables, s.free[0])| == 0
  {
    hide Holders;
    var f, s' := s.free[0], Allocated(s);
    assert s'.refs[f] == 0 && s'.boot == s.boot;
  }

  // ---- the two ways the code loses the invariant ----

  /** A frame is on the lists more than once. */
  ghost predicate Tangled(s: Pool) {
    !NoDuplicates(s.free) || exists f :: f in s.free && f in s.modified
  }

  lemma TangledIsNotOk(n: nat, s: Pool, tables: Tables)
    requires Tangled(s)
    ensures !Ok(n, s, tables)
  {
    hide Holders;
  }

  /** No unmapping untangles the lists. */
  lemma UnmapKeepsTangled(s: Pool, f: nat)
    requires Tangled(s) && f < |s.refs| == |s.buffered| && s.refs[f] > 0
    ensures Tangled(Unmapped(s, f))
  {
    var free' := Unmapped(s, f).free;
    if !NoDuplicates(s.free) && s.refs[f] == 1 {
      var i, j :| 0 <= i < j < |s.free| && s.free[i] == s.free[j];
      assert free'[i + 1] == free'[j + 1];
    }
  }

  /** unmap_frame on an entry frees a frame that is still listed: the entry is buffered and nothing but it holds the frame. */
  predicate Loses(boot: seq<nat>, e: Entry) {
    Buffered in e.perm && e.frame < |boot| && boot[e.frame] == 0
  }

  lemma UnmapTangles(n: nat, s: Pool, tables: Tables, t: nat, i: nat)
    requires Ok(n, s, tables) && t in tables && i < |tables[t]| && tables[t][i] != EMPTY && Loses(s.boot, tables[t][i])
    ensures tables[t][i].frame < n && s.refs[tables[t][i].frame] == 1 && Tangled(Unmapped(s, tables[t][i].frame))
  {
    hide Holders;
    var f := tables[t][i].frame;
    assert EntryFlagged(n, s, tables[t][i]);
    HolderCounts(tables, t, i);
    var free' := Unmapped(s, f).free;
    assert free'[0] == f;
    if f in s.free {
      var k :| 0 <= k < |s.free| && s.free[k] == f;
      assert free'[k + 1] == f;
    }
  }

  /** unmap_frame keeps the invariant exactly if it does not free a frame that is still listed. */
  lemma UnmapExactly(n: nat, s: Pool, tables: Tables, t: nat, i: nat)
    requires Ok(n, s, tables) && t in tables && i < |tables[t]| && tables[t][i] != EMPTY
    ensures tables[t][i].frame < n && s.refs[tables[t][i].frame] > 0
    ensures Ok(n, Unmapped(s, tables[t][i].frame), Write(tables, t, i, EMPTY)) <==> !Loses(s.boot, tables[t][i])
    ensures Loses(s.boot, tables[t][i]) ==> Tangled(Unmapped(s, tables[t][i].frame))
  {
    hide Ok, Holders;
    var e, tables' := tables[t][i], Write(tables, t, i, EMPTY);
    EntryOf(n, s, tables, t, i);
    if Loses(s.boot, e) {
      UnmapTangles(n, s, tables, t, i);
      TangledIsNotOk(n, Unmapped(s, e.frame), tables');
    } else if Present in e.perm {
      UnmapKeepsOk(n, s, tables, t, i);
    } else {
      UnmapKeptKeepsOk(n, s, tables, t, i);
    }
  }

  lemma EntryOf(n: nat, s: Pool, tables: Tables, t: nat, i: nat)
    requires Ok(n, s, tables) && t in tables && i < |tables[t]| && tables[t][i] != EMPTY
    ensures |s.refs| == |s.buffered| == |s.boot| == n
    ensures EntryFlagged(n, s, tables[t][i]) && tables[t][i].frame < n && s.refs[tables[t][i].frame] > 0
    ensures s.refs[tables[t][i].frame] == s.boot[tables[t][i].frame] + |Holders(tables, tables[t][i].frame)|
  {
    hide Holders;
    HolderCounts(tables, t, i);
  }

  /** A buffered entry whose frame boot keeps referenced can go: the frame stays listed and buffered. */
  lemma UnmapKeptKeepsOk(n: nat, s: Pool, tables: Tables, t: nat, i: nat)
    requires Ok(n, s, tables) && t in tables && i < |tables[t]| && Buffered in tables[t][i].perm
    requires tables[t][i].frame < |s.boot| && s.boot[tables[t][i].frame] > 0
    ensures tables[t][i].frame < n && s.refs[tables[t][i].frame] > 0
    ensures Ok(n, Unmapped(s, tables[t][i].frame), Write(tables, t, i, EMPTY))
  {
    hide Holders;
    var e, tables' := tables[t][i], Write(tables, t, i, EMPTY);
    EntryOf(n, s, tables, t, i);
    HolderCounts(tables, t, i);
    var s' := Unmapped(s, e.frame);
    forall f | 0 <= f < n
      ensures s'.refs[f] == s'.boot[f] + |Holders(tables', f)|
      ensures s'.buffered[f] ==> |Holders(tables', f)| <= 1
    {
      HoldersAfterWrite(tables, t, i, EMPTY, f);
    }
    forall t', i' | t' in tables' && 0 <= i' < |tables'[t']| ensures EntryFlagged(n, s', tables'[t'][i']) {
      assert t' != t || i' != i ==> tables'[t'][i'] == tables[t'][i'];
      assert EntryFlagged(n, s, tables[t'][i']);
    }
  }

  /**
   * map_frame on an absent entry keeps the invariant exactly if the entry is 0 and the frame is not buffered: over a
   * buffered entry the frame that waits there keeps a reference nothing accounts for.
   */
  lemma MapExactly(n: nat, s: Pool, tables: Tables, t: nat, i: nat, e: Entry)
    requires Ok(n, s, tables) && t in tables && i < |tables[t]| && Present !in tables[t][i].perm
    requires e.frame < n && Present in e.perm && Buffered !in e.perm
    requires e.frame in s.inHand || s.refs[e.frame] > 0
    ensures e.frame < |s.refs| == |s.buffered|
    ensures Ok(n, Mapped(s, e.frame), Write(tables, t, i, e)) <==> tables[t][i] == EMPTY && !s.buffered[e.frame]
    ensures tables[t][i] != EMPTY ==> Stray(n, Mapped(s, e.frame), Write(tables, t, i, e))
  {
    hide Ok, Holders;
    MapSizes(n, s, tables, e.frame);
    if tables[t][i] != EMPTY {
      MapOverBuffered(n, s, tables, t, i, e);
      StrayIsNotOk(n, Mapped(s, e.frame), Write(tables, t, i, e));
    } else if s.buffered[e.frame] {
      MapOfBuffered(n, s, tables, t, i, e);
    } else {
      MapKeepsOk(n, s, tables, t, i, e);
    }
  }

  lemma MapSizes(n: nat, s: Pool, tables: Tables, f: nat)
    requires Ok(n, s, tables)
    ensures Sized(n, s) && (f in s.inHand ==> f < n && !s.buffered[f])
  {
    hide Holders;
  }

  lemma MapOfBuffered(n: nat, s: Pool, tables: Tables, t: nat, i: nat, e: Entry)
    requires Sized(n, s) && t in tables && i < |tables[t]|
    requires e.frame < n && Present in e.perm && Buffered !in e.perm && s.buffered[e.frame]
    ensures !Ok(n, Mapped(s, e.frame), Write(tables, t, i, e))
  {
    hide Holders;
    assert Write(tables, t, i, e)[t][i] == e && !EntryFlagged(n, Mapped(s, e.frame), e);
  }

  /** A frame has a reference that no entry accounts for, so that nothing will ever free it. */
  ghost predicate Stray(n: nat, s: Pool, tables: Tables) {
    Sized(n, s) && exists f :: 0 <= f < n && s.refs[f] > s.boot[f] + |Holders(tables, f)|
  }

  lemma StrayIsNotOk(n: nat, s: Pool, tables: Tables)
    requires Stray(n, s, tables)
    ensures !Ok(n, s, tables)
  {
    hide Holders;
  }

  lemma StaysStray(n: nat, s: Pool, tables: Tables, tables': Tables)
    requires Stray(n, s, tables) && forall f: nat :: |Holders(tables', f)| == |Holders(tables, f)|
    ensures Stray(n, s, tables')
  {
    hide Holders;
  }

  lemma MapOverBuffered(n: nat, s: Pool, tables: Tables, t: nat, i: nat, e: Entry)
    requires Ok(n, s, tables) && t in tables && i < |tables[t]| && Present !in tables[t][i].perm && tables[t][i] != EMPTY
    requires e.frame < n && Present in e.perm
    ensures Stray(n, Mapped(s, e.frame), Write(tables, t, i, e))
  {
    hide Holders;
    var g := tables[t][i].frame;
    EntryOf(n, s, tables, t, i);
    HoldersAfterWrite(tables, t, i, e, g);
  }

  /** A new table of zeros in a frame that holds no table yet. */
  lemma NewTableKeepsOk(n: nat, s: Pool, tables: Tables, t: nat)
    requires Ok(n, s, tables) && t !in tables
    ensures Ok(n, s, tables[t := seq(ENTRIES, _ => EMPTY)])
  {
    var tables' := tables[t := seq(ENTRIES, _ => EMPTY)];
    forall f: nat ensures Holders(tables', f) == Holders(tables, f) {
      HoldersAfterNewTable(tables, t, f);
    }
    forall t', i' | t' in tables' && 0 <= i' < |tables'[t']| ensures EntryFlagged(n, s, tables'[t'][i']) {
      assert t' != t ==> EntryFlagged(n, s, tables[t'][i']);
    }
  }

  /** A write that keeps the frame and moves no bit the invariant looks at. */
  lemma RepermKeepsOk(n: nat, s: Pool, tables: Tables, t: nat, i: nat, perm: set<Perm>)
    requires Ok(n, s, tables) && t in tables && i < |tables[t]|
    requires Present in tables[t][i].perm && Present in perm && Buffered !in perm
    ensures Ok(n, s, Write(tables, t, i, Entry(tables[t][i].frame, perm)))
  {
    var e := Entry(tables[t][i].frame, perm);
    var tables' := Write(tables, t, i, e);
    forall f: nat ensures |Holders(tables', f)| == |Holders(tables, f)| {
      HoldersAfterWrite(tables, t, i, e, f);
    }
    forall t', i' | t' in tables' && 0 <= i' < |tables'[t']| ensures EntryFlagged(n, s, tables'[t'][i']) {
      assert t' != t || i' != i ==> tables'[t'][i'] == tables[t'][i'];
      assert EntryFlagged(n, s, tables[t'][i']);
    }
  }

  // ---- buffering: a page leaves memory but its frame keeps the contents until it is reused ----

  /** What eviction makes of the bits of a page. */
  function BufferedPerm(perm: set<Perm>): (r: set<Perm>)
    ensures Buffered in r && Present !in r && forall b :: b != Buffered && b != Present ==> (b in r <==> b in perm)
  {
    perm + {Buffered} - {Present}
  }

  /** What coming back makes of them. */
  function Restored(perm: set<Perm>): (r: set<Perm>)
    ensures Present in r && Buffered !in r && forall b :: b != Buffered && b != Present ==> (b in r <==> b in perm)
  {
    perm + {Present} - {Buffered}
  }

  function Victimised(s: Pool, e: Entry): (s': Pool)
    requires e.frame < |s.buffered|
  {
    var s1 := s.(buffered := s.buffered[e.frame := true]);
    if Modified in e.perm then s1.(modified := s.modified + [e.frame]) else s1.(free := s.free + [e.frame])
  }

  lemma VictimListed(n: nat, s: Pool, e: Entry)
    requires Sized(n, s) && Listed(n, s) && e.frame < n && s.refs[e.frame] > 0
    requires e.frame !in s.free && e.frame !in s.modified
    ensures Listed(n, Victimised(s, e))
    ensures forall g :: g in Victimised(s, e).modified <==> g in s.modified || (Modified in e.perm && g == e.frame)
  {
    var s' := Victimised(s, e);
    assert forall g :: g in s'.free <==> g in s.free || (Modified !in e.perm && g == e.frame);
  }

  lemma VictimKeepsOk(n: nat, s: Pool, tables: Tables, t: nat, i: nat)
    requires Ok(n, s, tables) && t in tables && i < |tables[t]| && Present in tables[t][i].perm
    requires tables[t][i].frame < n && |Holders(tables, tables[t][i].frame)| == 1
    ensures Ok(n, Victimised(s, tables[t][i]), Write(tables, t, i, Entry(tables[t][i].frame, BufferedPerm(tables[t][i].perm))))
  {
    hide Holders;
    var e := tables[t][i];
    var e', s' := Entry(e.frame, BufferedPerm(e.perm)), Victimised(s, e);
    var tables' := Write(tables, t, i, e');
    MappedIsNotFree(n, s, tables, t, i);
    forall f: nat ensures |Holders(tables', f)| == |Holders(tables, f)| {
      HoldersAfterWrite(tables, t, i, e', f);
    }
    VictimListed(n, s, e);
    forall t', i' | t' in tables' && 0 <= i' < |tables'[t']| ensures EntryFlagged(n, s', tables'[t'][i']) {
      assert EntryFlagged(n, s, tables[t'][i']);
      if t' != t || i' != i {
        assert tables'[t'][i'] == tables[t'][i'];
        if Holds(tables[t'][i'], e.frame) {
          OnlyHolder(tables, e.frame, t, i, t', i');
        }
      }
    }
  }

  lemma OnlyHolder(tables: Tables, f: nat, t: nat, i: nat, t': nat, i': nat)
    requires |Holders(tables, f)| <= 1 && t in tables && t' in tables && i < |tables[t]| && i' < |tables[t']|
    requires Holds(tables[t][i], f) && Holds(tables[t'][i'], f)
    ensures t == t' && i == i'
  {
    assert (t, i) in Holders(tables, f) && (t', i') in Holders(tables, f);
    var rest := Holders(tables, f) - {(t, i)};
    assert |rest| == 0;
    assert (t', i') !in rest;
  }

  ghost function Unvictimised(s: Pool, e: Entry): (s': Pool)
    requires e.frame < |s.buffered|
  {
    var s1 := s.(buffered := s.buffered[e.frame := false]);
    if Modified in e.perm then s1.(modified := Without(s.modified, e.frame)) else s1.(free := Without(s.free, e.frame))
  }

  /** A page that is evicted and comes back has its bits again, and every frame and list is as it was. */
  lemma ComesBack(s: Pool, e: Entry)
    requires e.frame < |s.buffered| && !s.buffered[e.frame] && e.frame !in s.free && e.frame !in s.modified
    requires Present in e.perm && Buffered !in e.perm
    ensures Restored(BufferedPerm(e.perm)) == e.perm
    ensures Unvictimised(Victimised(s, e), Entry(e.frame, BufferedPerm(e.perm))) == s
  {
    AppendedGoes(s.free, e.frame);
    AppendedGoes(s.modified, e.frame);
    assert s.buffered[e.frame := true][e.frame := false] == s.buffered;
  }

  lemma {:induction false} AppendedGoes(s: seq<nat>, f: nat)
    requires f !in s
    ensures Without(s + [f], f) == s
  {
    if s != [] {
      AppendedGoes(s[1..], f);
      assert (s + [f])[1..] == s[1..] + [f];
    }
  }

  lemma RestoreListed(n: nat, s: Pool, e: Entry)
    requires Sized(n, s) && Listed(n, s) && e.frame < n && s.refs[e.frame] > 0
    requires e.frame in (if Modified in e.perm then s.modified else s.free)
    ensures Listed(n, Unvictimised(s, e))
    ensures forall g :: g in Unvictimised(s, e).modified <==> g in s.modified && !(Modified in e.perm && g == e.frame)
  {
    WithoutRemoves(if Modified in e.perm then s.modified else s.free, e.frame);
  }

  lemma RestoreKeepsOk(n: nat, s: Pool, tables: Tables, t: nat, i: nat)
    requires Ok(n, s, tables) && t in tables && i < |tables[t]| && Buffered in tables[t][i].perm
    ensures tables[t][i].frame < n
    ensures Ok(n, Unvictimised(s, tables[t][i]), Write(tables, t, i, Entry(tables[t][i].frame, Restored(tables[t][i].perm))))
  {
    hide Holders;
    var e := tables[t][i];
    assert EntryFlagged(n, s, e);
    HolderCounts(tables, t, i);
    var e', s' := Entry(e.frame, Restored(e.perm)), Unvictimised(s, e);
    var tables' := Write(tables, t, i, e');
    forall f: nat ensures |Holders(tables', f)| == |Holders(tables, f)| {
      HoldersAfterWrite(tables, t, i, e', f);
    }
    RestoreListed(n, s, e);
    forall t', i' | t' in tables' && 0 <= i' < |tables'[t']| ensures EntryFlagged(n, s', tables'[t'][i']) {
      assert EntryFlagged(n, s, tables[t'][i']);
      if t' != t || i' != i {
        assert tables'[t'][i'] == tables[t'][i'];
        if Holds(tables[t'][i'], e.frame) {
          OnlyHolder(tables, e.frame, t, i, t', i');
        }
      }
    }
  }
}

/**
 * Two-level page tables in the 32-bit format of the Intel 64 and IA-32 Architectures Software
 * Developer's Manual, Volume 3A, section 4.3, as values, and what one write to an entry changes.
 */
module PageTables {
  import opened Layout

  datatype Perm = Present | Writeable | User | Used | Modified | Buffered

  /** A directory or table entry: a frame number and the permission bits set in the low 12 bits. */
  datatype Entry = Entry(frame: nat, perm: set<Perm>)

  /** The entry 0. */
  const EMPTY := Entry(0, {})

  type Table = seq<Entry>
  /** Page tables by the frame that holds them. */
  type Tables = map<nat, Table>
  /** Page directories by the frame that holds them. */
  type Dirs = map<nat, Table>

  const PAGES := 0x10_0000
  /** PDX(USER_TOP) and the first page above it. */
  const USER_TOP_PDX := 955
  const USER_TOP_PAGE := USER_TOP_PDX * ENTRIES
  const USER_TOP := USER_TOP_PAGE * PAGE_SIZE
  const USTACKTOP := USER_TOP - 2 * PAGE_SIZE
  /** PDX of the table that holds USER_LIMIT, where page-file updates map a frame for a moment. */
  const USER_LIMIT_PAGE := 0xEF800
  const KHEAP_START := 0xF6000
  const KHEAP_MAX := 0xFFFFF

  /** The addresses of the memory layout that these pages and tables stand for. */
  lemma AddressesOfLayout()
    ensures USER_TOP == 0xEEC0_0000 && USTACKTOP == 0xEEBF_E000 && USER_LIMIT_PAGE * PAGE_SIZE == 0xEF80_0000
    ensures KHEAP_START * PAGE_SIZE == 0xF600_0000 && KHEAP_MAX * PAGE_SIZE == 0xFFFF_F000
    ensures PAGES * PAGE_SIZE == 0x1_0000_0000 == ENTRIES * ENTRIES * 4096
    ensures USER_HEAP_MAX == USER_HEAP_START + HEAP_PAGES * PAGE_SIZE
  {
  }

  function Pdx(page: nat): nat { page / ENTRIES }
  function Ptx(page: nat): nat { page % ENTRIES }

  ghost predicate IsPage(dirs: Dirs, d: nat, page: int) {
    d in dirs && |dirs[d]| == ENTRIES && 0 <= page < PAGES
  }

  predicate HasTable(dirs: Dirs, d: nat, page: nat) {
    d in dirs && Pdx(page) < |dirs[d]| && Present in dirs[d][Pdx(page)].perm
  }

  /** Every directory entry is 0 or present, and then points to a table. */
  ghost predicate Shape(n: nat, tables: Tables, dirs: Dirs) {
    && (forall d :: d in dirs ==> |dirs[d]| == ENTRIES)
    && (forall t :: t in tables ==> |tables[t]| == ENTRIES)
    && (forall d, i :: d in dirs && 0 <= i < ENTRIES && dirs[d][i] != EMPTY ==>
          Present in dirs[d][i].perm && dirs[d][i].frame in tables)
    && (forall t, i :: t in tables && 0 <= i < ENTRIES && tables[t][i] != EMPTY ==> tables[t][i].frame < n)
  }

  /** Only the kernel part of the address space, at equal indices, is shared between directories. */
  ghost predicate Separate(dirs: Dirs) {
    forall d, i, d', i' ::
      d in dirs && d' in dirs && 0 <= i < |dirs[d]| && 0 <= i' < |dirs[d']| && dirs[d][i] != EMPTY
      && dirs[d'][i'] != EMPTY && dirs[d][i].frame == dirs[d'][i'].frame
      ==> i == i' && (d == d' || i >= USER_TOP_PDX)
  }

  /** The entry that maps a page, 0 when its table does not exist. */
  function EntryAt(tables: Tables, dirs: Dirs, d: nat, page: nat): Entry {
    if HasTable(dirs, d, page) && HasEntry(tables, dirs[d][Pdx(page)].frame, page) then
      tables[dirs[d][Pdx(page)].frame][Ptx(page)]
    else
      EMPTY
  }

  predicate HasEntry(tables: Tables, t: nat, page: nat) {
    t in tables && Ptx(page) < |tables[t]|
  }

  /** Every page but this one, in every address space it belongs to, has the entry it had. */
  ghost predicate SameElsewhere(tables: Tables, dirs: Dirs, tables': Tables, dirs': Dirs, d: nat, page: nat) {
    forall d', p' :: IsPage(dirs, d', p') && IsPage(dirs', d', p') && (p' != page || (d' != d && page < USER_TOP_PAGE)) ==>
      EntryAt(tables', dirs', d', p') == EntryAt(tables, dirs, d', p')
  }

  lemma SameElsewhereTwice(first: Tables, second: Tables, third: Tables, dirs: Dirs, d: nat, page: nat)
    requires SameElsewhere(first, dirs, second, dirs, d, page) && SameElsewhere(second, dirs, third, dirs, d, page)
    ensures SameElsewhere(first, dirs, third, dirs, d, page)
  {
    hide EntryAt;
  }

  function Write(tables: Tables, t: nat, i: nat, e: Entry): Tables
    requires t in tables && i < |tables[t]|
  {
    tables[t := tables[t][i := e]]
  }

  lemma WriteTwice(tables: Tables, t: nat, i: nat, e: Entry, e': Entry)
    requires t in tables && i < |tables[t]|
    ensures Write(Write(tables, t, i, e), t, i, e') == Write(tables, t, i, e')
  {
    assert tables[t][i := e][i := e'] == tables[t][i := e'];
  }

  lemma WriteSame(tables: Tables, t: nat, i: nat, e: Entry)
    requires t in tables && i < |tables[t]| && tables[t][i] == e
    ensures Write(tables, t, i, e) == tables
  {
    assert tables[t][i := e] == tables[t];
  }

  /** The slots of all page tables that hold frame f. */
  ghost function Holders(tables: Tables, f: nat): set<(nat, nat)> {
    set t, i | t in tables.Keys && 0 <= i < |tables[t]| && tables[t][i] != EMPTY && tables[t][i].frame == f :: (t, i)
  }

  predicate Holds(e: Entry, f: nat) { e != EMPTY && e.frame == f }

  predicate InTable(tables: Tables, f: nat, y: (nat, nat)) {
    y.0 in tables && y.1 < |tables[y.0]| && Holds(tables[y.0][y.1], f)
  }

  lemma InHolders(tables: Tables, f: nat, y: (nat, nat))
    ensures y in Holders(tables, f) <==> InTable(tables, f, y)
  {
  }

  lemma SizeWithout<T>(s: set<T>, x: T)
    ensures |s| == |s - {x}| + (if x in s then 1 else 0)
  {
    assert s == if x in s then (s - {x}) + {x} else s - {x};
  }

  /** A write moves the number of holders of a frame by one at most. */
  lemma HoldersAfterWrite(tables: Tables, t: nat, i: nat, e: Entry, f: nat)
    requires t in tables && i < |tables[t]|
    ensures |Holders(Write(tables, t, i, e), f)| + (if Holds(tables[t][i], f) then 1 else 0)
         == |Holders(tables, f)| + (if Holds(e, f) then 1 else 0)
  {
    hide Holders;
    var x, tables' := (t, i), Write(tables, t, i, e);
    var before, after := Holders(tables, f), Holders(tables', f);
    forall y: (nat, nat) ensures y in before <==> InTable(tables, f, y) {
      InHolders(tables, f, y);
    }
    forall y: (nat, nat) ensures y in after <==> InTable(tables', f, y) {
      InHolders(tables', f, y);
    }
    assert before - {x} == after - {x};
    SizeWithout(before, x);
    SizeWithout(after, x);
  }

  /** A new table of zeros holds nothing. */
  lemma HoldersAfterNewTable(tables: Tables, t: nat, f: nat)
    requires t !in tables
    ensures Holders(tables[t := seq(ENTRIES, _ => EMPTY)], f) == Holders(tables, f)
  {
  }

  lemma HolderCounts(tables: Tables, t: nat, i: nat)
    requires t in tables && i < |tables[t]| && tables[t][i] != EMPTY
    ensures (t, i) in Holders(tables, tables[t][i].frame) && |Holders(tables, tables[t][i].frame)| >= 1
  {
    assert {(t, i)} <= Holders(tables, tables[t][i].frame);
    var rest := Holders(tables, tables[t][i].frame) - {(t, i)};
    assert |Holders(tables, tables[t][i].frame)| == |rest| + 1;
  }

  /** Writing the entry of one page leaves every other page of every address space alone. */
  lemma WriteChangesOnePage(n: nat, tables: Tables, dirs: Dirs, d: nat, page: nat, e: Entry)
    requires Shape(n, tables, dirs) && Separate(dirs) && IsPage(dirs, d, page) && HasTable(dirs, d, page)
    requires e == EMPTY || e.frame < n
    ensures var tables' := Write(tables, dirs[d][Pdx(page)].frame, Ptx(page), e);
      && Shape(n, tables', dirs)
      && EntryAt(tables', dirs, d, page) == e
      && SameElsewhere(tables, dirs, tables', dirs, d, page)
  {
    var t := dirs[d][Pdx(page)].frame;
    var tables' := Write(tables, t, Ptx(page), e);
    forall d', p' | IsPage(dirs, d', p') && (p' != page || (d' != d && page < USER_TOP_PAGE))
      ensures EntryAt(tables', dirs, d', p') == EntryAt(tables, dirs, d', p')
    {
      if HasTable(dirs, d', p') && dirs[d'][Pdx(p')].frame == t && Ptx(p') == Ptx(page) {
        assert false;
      }
    }
  }
}

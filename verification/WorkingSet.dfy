/** The working set of an environment: its slots, and what keeps them in step with the page tables. */
module WorkingSet {
  import opened Layout
  import opened PageTables
  import M = Memory

  /** struct WorkingSetElement */
  datatype Slot = Slot(va: uint32, empty: bool, timeStamp: uint32)

  /** The index the hand is at after k steps from index from. */
  function After(n: nat, from: nat, k: nat): nat {
    if from + k < n then from + k else from + k - n
  }

  function PagesOf(slots: seq<Slot>): (pages: seq<nat>)
    ensures |pages| == |slots|
  {
    seq(|slots|, i requires 0 <= i < |slots| => slots[i].va / PAGE_SIZE)
  }

  /** The slots once env_page_ws_set_entry has put the page of va in slot i. */
  function WithPage(slots: seq<Slot>, i: nat, va: uint32): (r: seq<Slot>)
    requires i < |slots|
  {
    slots[i := Slot(RoundDown(va, PAGE_SIZE), false, 0x8000_0000)]
  }

  /** The page is a present user page whose frame no other entry holds. */
  ghost predicate Private(n: nat, tables: Tables, dirs: Dirs, dir: nat, home: map<nat, nat>, startAdd: int, page: nat) {
    && M.Reaches(dirs, home, startAdd, dir, page) && Present in EntryAt(tables, dirs, dir, page).perm
    && EntryAt(tables, dirs, dir, page).frame < n
    && |Holders(tables, EntryAt(tables, dirs, dir, page).frame)| == 1
  }

  /** Working-set entries are page aligned and distinct, and each is a present private user page. */
  ghost predicate Resident(n: nat, slots: seq<Slot>, tables: Tables, dirs: Dirs, dir: nat, home: map<nat, nat>, startAdd: int) {
    && IsPage(dirs, dir, 0)
    && (forall i :: 0 <= i < |slots| && !slots[i].empty ==>
          slots[i].va % PAGE_SIZE == 0 && slots[i].va < USER_TOP
          && Private(n, tables, dirs, dir, home, startAdd, slots[i].va / PAGE_SIZE))
    && (forall i, j :: 0 <= i < j < |slots| && !slots[i].empty && !slots[j].empty ==> slots[i].va != slots[j].va)
  }

  class Env {
    /** The key of this environment in the page file, and the frame of its page directory. */
    const id: nat
    const dir: nat
    const ws: array<Slot>
    /** page_last_WS_index */
    var hand: nat

    constructor (id: nat, dir: nat, size: nat)
      requires size > 0
      ensures this.id == id && this.dir == dir && hand == 0 && fresh(ws) && ws.Length == size
      ensures forall i :: 0 <= i < size ==> ws[i].empty
    {
      this.id, this.dir, hand := id, dir, 0;
      ws := new Slot[size](_ => Slot(0, true, 0));
    }

    ghost predicate Resides(mem: M.Memory)
      reads ws, mem
    {
      Resident(mem.n, ws[..], mem.tables, mem.dirs, dir, mem.home, mem.startAdd)
    }

    ghost predicate Valid(mem: M.Memory)
      reads ws, mem
    {
      mem.Valid() && Resides(mem)
    }

    method Advance()
      requires hand < ws.Length
      modifies this`hand
      ensures hand == After(ws.Length, old(hand), 1)
    {
      hand := hand + 1;
      if hand == ws.Length {
        hand := 0;
      }
    }

    method ClearEntry(i: nat)
      requires i < ws.Length
      modifies ws
      ensures ws[..] == old(ws[..])[i := Slot(0, true, 0)]
    {
      ws[i] := Slot(0, true, 0);
    }

    /** env_page_ws_set_entry, which asserts that the page is below USER_TOP. */
    method SetEntry(i: nat, va: uint32)
      requires i < ws.Length && va < USER_TOP
      modifies ws
      ensures ws[..] == WithPage(old(ws[..]), i, va)
    {
      ws[i] := Slot(RoundDown(va, PAGE_SIZE), false, 0x8000_0000);
    }
  }
}

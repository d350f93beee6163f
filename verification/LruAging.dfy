/** The aging of working-set entries on a clock tick: update_WS_time_stamps of kern/sched.c. */
module LruAging {
  import opened Layout
  import opened PageTables
  import opened WorkingSet
  import FramePool
  import PF = PageFault
  import M = Memory

  const NEWEST := 0x8000_0000

  /** oldTimeStamp >> 2, with bit 31 set if the page was used; bit 31 being free after the shift, | is +. */
  function Aged(stamp: uint32, used: bool): uint32 {
    stamp / 4 + if used then NEWEST else 0
  }

  lemma OrIsPlus(stamp: bv32)
    ensures (stamp >> 2) | 0x8000_0000 == (stamp >> 2) + 0x8000_0000 && stamp >> 2 < 0x4000_0000
  {
  }

  // ---- what a stamp means ----

  /** The stamp of a page that started with stamp0 and whose used bit at each tick since was as listed, newest first. */
  function StampAfter(stamp0: uint32, bits: seq<bool>): uint32 {
    if bits == [] then stamp0 else Aged(StampAfter(stamp0, bits[1..]), bits[0])
  }

  /** 2^(31 - 2i): the weight of the reference bit of i ticks ago. */
  function Weight(i: nat): nat {
    if i == 0 then NEWEST else Weight(i - 1) / 4
  }

  predicate Bit(bits: seq<bool>, i: nat) {
    i < |bits| && bits[i]
  }

  /** The weighted sum of the reference bits from i to 15 ticks ago. */
  function Sum(bits: seq<bool>, i: nat): nat
    decreases 16 - i
  {
    if i >= 16 then 0 else (if Bit(bits, i) then Weight(i) else 0) + Sum(bits, i + 1)
  }

  lemma Weights(i: nat)
    requires i < 16
    ensures Weight(i) > 0 && (if i < 15 then Weight(i) == 4 * Weight(i + 1) && Weight(i) % 8 == 0 else Weight(i) == 2)
  {
    WeightAt(i);
    if i < 15 { WeightAt(i + 1); }
  }

  lemma {:induction false} WeightAt(i: nat)
    requires i < 16
    ensures Weight(i) == [NEWEST, 0x2000_0000, 0x800_0000, 0x200_0000, 0x80_0000, 0x20_0000, 0x8_0000, 0x2_0000,
                          0x8000, 0x2000, 0x800, 0x200, 0x80, 0x20, 8, 2][i]
  {
    if i > 0 { WeightAt(i - 1); }
  }

  /** Another tick shifts every bit one place down and drops the sixteenth. */
  lemma {:induction false} SumShifts(bits: seq<bool>, b: bool, i: nat)
    requires i < 16
    ensures Sum([b] + bits, i + 1) == Sum(bits, i) / 4 && (Sum(bits, i) % 8 == 0 || Sum(bits, i) % 8 == 2)
    decreases 16 - i
  {
    hide Weight, Sum, Bit;
    Weights(i);
    SumStep(bits, i);
    NothingLeft(bits, [b] + bits);
    BitShifts(bits, b, i);
    if i < 15 {
      SumStep([b] + bits, i + 1);
      SumShifts(bits, b, i + 1);
      Quarter(Weight(i), Weight(i + 1), Sum(bits, i + 1), Bit(bits, i));
    }
  }

  lemma BitShifts(bits: seq<bool>, b: bool, i: nat)
    ensures Bit([b] + bits, i + 1) == Bit(bits, i)
  {
  }

  lemma SumStep(bits: seq<bool>, i: nat)
    requires i < 16
    ensures Sum(bits, i) == (if Bit(bits, i) then Weight(i) else 0) + Sum(bits, i + 1)
  {
  }

  lemma Quarter(w: nat, w': nat, s: nat, bit: bool)
    requires w == 4 * w' && w % 8 == 0
    ensures ((if bit then w else 0) + s) / 4 == (if bit then w' else 0) + s / 4
    ensures ((if bit then w else 0) + s) % 8 == s % 8
  {
  }

  lemma NothingLeft(a: seq<bool>, b: seq<bool>)
    ensures Sum(a, 16) == 0 && Sum(b, 16) == 0
  {
  }

  lemma SumAges(bits: seq<bool>, b: bool)
    ensures Sum([b] + bits, 0) == Sum(bits, 0) / 4 + if b then NEWEST else 0
  {
    hide Sum;
    SumShifts(bits, b, 0);
    SumStep([b] + bits, 0);
  }

  /** A stamp is the weighted sum of the reference bits since placement, placement counting as one. */
  lemma {:induction false} StampIsSum(bits: seq<bool>)
    ensures StampAfter(NEWEST, bits) == Sum(bits + [true], 0)
    ensures StampAfter(0, bits) == Sum(bits, 0)
  {
    hide Sum;
    if bits == [] {
      assert bits + [true] == [true] + [];
      SumAges([], true);
      NothingSummed([], 0);
    } else {
      var rest := bits[1..];
      StampIsSum(rest);
      SumAges(rest + [true], bits[0]);
      SumAges(rest, bits[0]);
      assert bits == [bits[0]] + rest && bits + [true] == [bits[0]] + (rest + [true]);
    }
  }

  lemma {:induction false} NothingSummed(bits: seq<bool>, i: nat)
    requires |bits| <= i
    ensures Sum(bits, i) == 0
    decreases 16 - i
  {
    if i < 16 {
      NothingSummed(bits, i + 1);
    }
  }

  /** Of two pages the second was referenced at the last tick, from i to 15 ago, at which exactly one was. */
  predicate LexLess(a: seq<bool>, b: seq<bool>, i: nat)
    decreases 16 - i
  {
    i < 16 && if Bit(a, i) == Bit(b, i) then LexLess(a, b, i + 1) else Bit(b, i)
  }

  lemma {:induction false} SumIsSmall(bits: seq<bool>, i: nat)
    requires 0 < i <= 16
    ensures Sum(bits, i) < Weight(i - 1)
    decreases 16 - i
  {
    Weights(i - 1);
    hide Weight;
    if i < 16 {
      SumIsSmall(bits, i + 1);
    }
  }

  lemma {:induction false} SumsCompare(a: seq<bool>, b: seq<bool>, i: nat)
    ensures Sum(a, i) < Sum(b, i) <==> LexLess(a, b, i)
    decreases 16 - i
  {
    hide Weight;
    if i < 16 {
      SumIsSmall(a, i + 1);
      SumIsSmall(b, i + 1);
      SumsCompare(a, b, i + 1);
    }
  }

  // ---- the tick ----

  function AgedSlot(slot: Slot, perm: set<Perm>): Slot {
    if slot.empty then slot else slot.(timeStamp := Aged(slot.timeStamp, Used in perm))
  }

  /** The page is in one of the first k slots. */
  ghost predicate InSlots(slots: seq<Slot>, page: nat, k: nat) {
    exists j :: 0 <= j < k && j < |slots| && !slots[j].empty && slots[j].va / PAGE_SIZE == page
  }

  function Unused(e: Entry): Entry {
    Entry(e.frame, e.perm - {Used})
  }

  /** The first k slots have seen the tick: aged, and their pages' used bits taken; nothing else has changed. */
  ghost predicate Ticked(was: seq<Slot>, slots: seq<Slot>, start: Tables, tables: Tables, dirs: Dirs, dir: nat, k: nat) {
    && |slots| == |was|
    && (forall j :: 0 <= j < |slots| ==>
          slots[j] == if j < k then AgedSlot(was[j], EntryAt(start, dirs, dir, was[j].va / PAGE_SIZE).perm) else was[j])
    && (forall d, p :: IsPage(dirs, d, p) ==>
          EntryAt(tables, dirs, d, p)
          == if d == dir && InSlots(was, p, k) then Unused(EntryAt(start, dirs, d, p)) else EntryAt(start, dirs, d, p))
  }

  lemma TickStep(was: seq<Slot>, slots: seq<Slot>, start: Tables, before: Tables, tables: Tables, dirs: Dirs, dir: nat, k: nat)
    requires k < |was| && Ticked(was, slots, start, before, dirs, dir, k)
    requires forall i, j :: 0 <= i < j < |was| && !was[i].empty && !was[j].empty ==>
               was[i].va / PAGE_SIZE != was[j].va / PAGE_SIZE
    requires was[k].empty ==> tables == before
    requires !was[k].empty ==>
      && IsPage(dirs, dir, was[k].va / PAGE_SIZE) && was[k].va < USER_TOP
      && SameElsewhere(before, dirs, tables, dirs, dir, was[k].va / PAGE_SIZE)
      && EntryAt(tables, dirs, dir, was[k].va / PAGE_SIZE) == Unused(EntryAt(before, dirs, dir, was[k].va / PAGE_SIZE))
    ensures slots[k] == was[k]
    ensures !was[k].empty ==>
      EntryAt(before, dirs, dir, was[k].va / PAGE_SIZE) == EntryAt(start, dirs, dir, was[k].va / PAGE_SIZE)
    ensures Ticked(was, slots[k := AgedSlot(was[k], EntryAt(start, dirs, dir, was[k].va / PAGE_SIZE).perm)],
                   start, tables, dirs, dir, k + 1)
  {
    hide EntryAt;
    forall d, p | IsPage(dirs, d, p)
      ensures EntryAt(tables, dirs, d, p)
           == if d == dir && InSlots(was, p, k + 1) then Unused(EntryAt(start, dirs, d, p)) else EntryAt(start, dirs, d, p)
    {
      assert InSlots(was, p, k + 1) <==> InSlots(was, p, k) || (!was[k].empty && was[k].va / PAGE_SIZE == p);
    }
  }

  /** The time stamps play no part in residence. */
  lemma ResidentWhateverStamp(n: nat, slots: seq<Slot>, tables: Tables, dirs: Dirs, dir: nat, home: map<nat, nat>,
                              startAdd: int, i: nat, stamp: uint32)
    requires Resident(n, slots, tables, dirs, dir, home, startAdd) && i < |slots|
    ensures Resident(n, slots[i := slots[i].(timeStamp := stamp)], tables, dirs, dir, home, startAdd)
  {
    hide EntryAt, Holders, Private;
  }

  lemma SlotPage(n: nat, slots: seq<Slot>, tables: Tables, dirs: Dirs, dir: nat, home: map<nat, nat>, startAdd: int, i: nat)
    requires Resident(n, slots, tables, dirs, dir, home, startAdd) && i < |slots| && !slots[i].empty
    ensures slots[i].va < USER_TOP && IsPage(dirs, dir, slots[i].va / PAGE_SIZE)
    ensures Private(n, tables, dirs, dir, home, startAdd, slots[i].va / PAGE_SIZE)
  {
    hide EntryAt, Holders, Private;
  }

  lemma PagesDistinct(n: nat, slots: seq<Slot>, tables: Tables, dirs: Dirs, dir: nat, home: map<nat, nat>, startAdd: int)
    requires Resident(n, slots, tables, dirs, dir, home, startAdd)
    ensures forall i, j :: 0 <= i < j < |slots| && !slots[i].empty && !slots[j].empty ==>
      slots[i].va / PAGE_SIZE != slots[j].va / PAGE_SIZE
    ensures IsPage(dirs, dir, 0)
  {
    hide EntryAt, Holders, Private;
  }

  /** The loop body of update_WS_time_stamps for a slot in use. */
  method AgeSlot(env: Env, mem: M.Memory, i: nat)
    requires i < env.ws.Length && !env.ws[i].empty && env.Valid(mem)
    modifies mem`tables, env.ws
    ensures env.Valid(mem)
    ensures env.ws[..] == old(env.ws[..])[i := AgedSlot(old(env.ws[i]), old(mem.At(env.dir, env.ws[i].va / PAGE_SIZE)).perm)]
    ensures mem.At(env.dir, env.ws[i].va / PAGE_SIZE) == Unused(old(mem.At(env.dir, env.ws[i].va / PAGE_SIZE)))
    ensures SameElsewhere(old(mem.tables), mem.dirs, mem.tables, mem.dirs, env.dir, env.ws[i].va / PAGE_SIZE)
  {
    hide FramePool.Ok, M.Structured, Resident, EntryAt, Holders;
    ghost var before, slots, dir := mem.tables, env.ws[..], env.dir;
    SlotPage(mem.n, slots, before, mem.dirs, dir, mem.home, mem.startAdd, i);
    var pageVa, old_stamp := env.ws[i].va, env.ws[i].timeStamp;
    mem.PresentFrame(dir, pageVa / PAGE_SIZE);
    mem.ValidIsTallied();
    ghost var e := mem.At(dir, pageVa / PAGE_SIZE);
    var perm := mem.GetPagePermissions(env.dir, pageVa);
    if Used in perm {
      mem.SetPagePermissions(env.dir, pageVa, {}, {Used});
      assert e.perm + {} - {Used} == e.perm - {Used};
      PF.ResidentStays(mem.n, slots, before, mem.tables, mem.dirs, dir, mem.home, mem.startAdd, pageVa / PAGE_SIZE);
    } else {
      assert e.perm - {Used} == e.perm;
    }
    ResidentWhateverStamp(mem.n, slots, mem.tables, mem.dirs, dir, mem.home, mem.startAdd, i, Aged(old_stamp, Used in perm));
    env.ws[i] := env.ws[i].(timeStamp := Aged(old_stamp, Used in perm));
  }

  method UpdateTimeStamps(env: Env, mem: M.Memory)
    requires env.Valid(mem)
    modifies mem`tables, env.ws
    ensures env.Valid(mem)
    ensures Ticked(old(env.ws[..]), env.ws[..], old(mem.tables), mem.tables, mem.dirs, env.dir, env.ws.Length)
  {
    hide FramePool.Ok, M.Structured, Resident, EntryAt, Holders, Ticked, SameElsewhere, Unused;
    ghost var was, start := env.ws[..], mem.tables;
    PagesDistinct(mem.n, was, start, mem.dirs, env.dir, mem.home, mem.startAdd);
    NoneTicked(was, start, mem.dirs, env.dir);
    var i := 0;
    while i < env.ws.Length
      invariant 0 <= i <= env.ws.Length && env.Valid(mem)
      invariant Ticked(was, env.ws[..], start, mem.tables, mem.dirs, env.dir, i)
    {
      ghost var slots, before := env.ws[..], mem.tables;
      NextSlot(was, slots, start, before, mem.dirs, env.dir, i);
      if !env.ws[i].empty {
        SlotPage(mem.n, slots, before, mem.dirs, env.dir, mem.home, mem.startAdd, i);
        AgeSlot(env, mem, i);
      }
      TickStep(was, slots, start, before, mem.tables, mem.dirs, env.dir, i);
      assert env.ws[..] == slots[i := env.ws[i]];
      i := i + 1;
    }
  }

  /** A tick takes nothing but the used bits of the pages in slots, and changes nothing of a slot in use but its stamp. */
  lemma TickLeaves(was: seq<Slot>, slots: seq<Slot>, start: Tables, tables: Tables, dirs: Dirs, dir: nat, d: nat, p: nat)
    requires Ticked(was, slots, start, tables, dirs, dir, |was|) && IsPage(dirs, d, p)
    ensures var e, e' := EntryAt(start, dirs, d, p), EntryAt(tables, dirs, d, p);
      && e'.frame == e.frame && (forall b :: b != Used ==> (b in e'.perm <==> b in e.perm))
      && (Used in e'.perm <==>
          Used in e.perm && (d == dir ==> forall j :: 0 <= j < |was| && !was[j].empty ==> was[j].va / PAGE_SIZE != p))
    ensures |slots| == |was| && forall j :: 0 <= j < |was| ==>
      if was[j].empty then slots[j] == was[j]
      else
        var stamp: int := was[j].timeStamp / 4;
        && slots[j].va == was[j].va && !slots[j].empty
        && slots[j].timeStamp
           == stamp + if Used in EntryAt(start, dirs, dir, was[j].va / PAGE_SIZE).perm then 0x8000_0000 else 0
  {
    hide EntryAt;
  }

  lemma NextSlot(was: seq<Slot>, slots: seq<Slot>, start: Tables, tables: Tables, dirs: Dirs, dir: nat, k: nat)
    requires k < |was| && Ticked(was, slots, start, tables, dirs, dir, k)
    ensures slots[k] == was[k]
  {
    hide EntryAt;
  }

  lemma NoneTicked(was: seq<Slot>, start: Tables, dirs: Dirs, dir: nat)
    ensures Ticked(was, was, start, start, dirs, dir, 0)
  {
    hide EntryAt;
  }

  // ---- runs ----

  /**
   * What happens to the slots of a working set: a clock tick, which finds the given permissions on their pages, a page
   * that a fault puts in a slot, one that the loader puts there, and one that leaves.
   */
  datatype Event = Tick(perms: seq<set<Perm>>) | Place(slot: nat, va: uint32) | Load(slot: nat, va: uint32) | Leave(slot: nat)

  predicate Fits(n: nat, ev: Event) {
    match ev
    case Tick(perms) => |perms| == n
    case Place(i, _) => i < n
    case Load(i, _) => i < n
    case Leave(i) => i < n
  }

  function Apply(slots: seq<Slot>, ev: Event): (slots': seq<Slot>)
    requires Fits(|slots|, ev)
    ensures |slots'| == |slots|
  {
    match ev
    case Tick(perms) => seq(|slots|, j requires 0 <= j < |slots| => AgedSlot(slots[j], perms[j]))
    case Place(i, va) => WithPage(slots, i, va)
    case Load(i, va) => slots[i := Slot(va, false, 0)]
    case Leave(i) => slots[i := Slot(0, true, 0)]
  }

  /** The slots of a new environment, all empty, after the events, the last one last. */
  function After(n: nat, evs: seq<Event>): (slots: seq<Slot>)
    requires forall ev :: ev in evs ==> Fits(n, ev)
    ensures |slots| == n
  {
    if evs == [] then seq(n, _ => Slot(0, true, 0)) else Apply(After(n, evs[..|evs| - 1]), evs[|evs| - 1])
  }

  /** update_WS_time_stamps is a Tick with the permissions in the page tables. */
  lemma TickIsApplied(was: seq<Slot>, slots: seq<Slot>, start: Tables, tables: Tables, dirs: Dirs, dir: nat)
    requires Ticked(was, slots, start, tables, dirs, dir, |was|)
    ensures slots == Apply(was, Tick(PF.PermsOf(was, start, dirs, dir)))
  {
    hide EntryAt;
  }

  /** The used bits of the page in slot i at the ticks since it got there, newest first. */
  function UsedBits(evs: seq<Event>, i: nat): seq<bool> {
    if evs == [] then []
    else
      var init := evs[..|evs| - 1];
      match evs[|evs| - 1]
      case Tick(perms) => [i < |perms| && Used in perms[i]] + UsedBits(init, i)
      case Place(j, _) => if j == i then [] else UsedBits(init, i)
      case Load(j, _) => if j == i then [] else UsedBits(init, i)
      case Leave(j) => if j == i then [] else UsedBits(init, i)
  }

  /** The page in slot i got there by a fault: the last of the events on the slot is a Place. */
  predicate Faulted(evs: seq<Event>, i: nat) {
    evs != [] &&
    var init := evs[..|evs| - 1];
    match evs[|evs| - 1]
    case Tick(_) => Faulted(init, i)
    case Place(j, _) => j == i || Faulted(init, i)
    case Load(j, _) => j != i && Faulted(init, i)
    case Leave(j) => j != i && Faulted(init, i)
  }

  /** When the page in slot i was referenced, tick by tick, newest first; a fault on it is a reference, loading it is none. */
  function References(evs: seq<Event>, i: nat): seq<bool> {
    UsedBits(evs, i) + if Faulted(evs, i) then [true] else []
  }

  lemma {:induction false} StampOfRun(n: nat, evs: seq<Event>, i: nat)
    requires (forall ev :: ev in evs ==> Fits(n, ev)) && i < n && !After(n, evs)[i].empty
    ensures After(n, evs)[i].timeStamp == StampAfter(if Faulted(evs, i) then NEWEST else 0, UsedBits(evs, i))
  {
    var init, ev := evs[..|evs| - 1], evs[|evs| - 1];
    assert ev in evs && forall e :: e in init ==> e in evs;
    if !After(n, init)[i].empty {
      StampOfRun(n, init, i);
    }
    if ev.Tick? {
      assert UsedBits(evs, i)[1..] == UsedBits(init, i);
    }
  }

  /** After any run the stamp of a slot in use is the weighted sum of the references to its page in the latest sixteen ticks. */
  lemma EveryRunSums(n: nat, evs: seq<Event>, i: nat)
    requires (forall ev :: ev in evs ==> Fits(n, ev)) && i < n && !After(n, evs)[i].empty
    ensures After(n, evs)[i].timeStamp == Sum(References(evs, i), 0)
  {
    hide Sum, After;
    StampOfRun(n, evs, i);
    StampIsSum(UsedBits(evs, i));
    assert UsedBits(evs, i) + [] == UsedBits(evs, i);
  }

  /**
   * So after any run the order of the stamps of two slots in use is that of their pages' references in the latest
   * sixteen ticks, the newest deciding first: older ones make no difference.
   */
  lemma EveryRunCompares(n: nat, evs: seq<Event>, i: nat, j: nat)
    requires (forall ev :: ev in evs ==> Fits(n, ev)) && i < n && j < n
    requires !After(n, evs)[i].empty && !After(n, evs)[j].empty
    ensures After(n, evs)[i].timeStamp < After(n, evs)[j].timeStamp <==> LexLess(References(evs, i), References(evs, j), 0)
  {
    hide Sum, After, LexLess, References;
    EveryRunSums(n, evs, i);
    EveryRunSums(n, evs, j);
    SumsCompare(References(evs, i), References(evs, j), 0);
  }
}
